/**
 * The answers the kernel reads from the Limine boot protocol
 * (`src/arch/x86_64/boot/limine/req.rs`): each request's response is
 * either missing or present, and the kernel either dies, warns, or hands
 * the response on. The response structures themselves are plain values
 * here; the request identifiers are left out.
 */
module LimineReq {
  import opened Prelude
  import opened Process

  /** The memory-map entry types of the protocol. */
  const MEMMAP_USABLE: nat := 0
  const MEMMAP_RESERVED: nat := 1
  const MEMMAP_ACPI_RECLAIMABLE: nat := 2
  const MEMMAP_ACPI_NVS: nat := 3
  const MEMMAP_BAD_MEMORY: nat := 4
  const MEMMAP_BOOTLOADER_RECLAIMABLE: nat := 5
  const MEMMAP_KERNEL_AND_MODULES: nat := 6
  const MEMMAP_FRAMEBUFFER: nat := 7

  /** One entry of the physical memory map. */
  datatype MemmapEntry = MemmapEntry(base: nat, length: nat, kind: nat)

  /** The entries the kernel may use once it no longer needs the bootloader's data. */
  predicate Reclaimable(e: MemmapEntry) {
    e.kind == MEMMAP_USABLE || e.kind == MEMMAP_ACPI_RECLAIMABLE || e.kind == MEMMAP_BOOTLOADER_RECLAIMABLE
  }

  /** Why the kernel stops booting. */
  datatype Fatal = NoHhdm | NoMemoryMap | NoModules | NoInitModule | NoKernelAddress

  /** `hhdm_offset`: the bootloader's direct-map offset; without it the kernel dies. */
  function HhdmOffset(response: Option<nat>): (r: Result<nat, Fatal>)
    ensures r.Err? <==> response.None?
    ensures r.Err? ==> r.error == NoHhdm
    ensures r.Ok? ==> r.value == response.value
  {
    match response
    case None => Err(NoHhdm)
    case Some(offset) => Ok(offset)
  }

  /** `framebuffers`: a missing answer is not fatal, it means there are no framebuffers. */
  function Framebuffers<F>(response: Option<seq<F>>): (fbs: seq<F>)
    ensures response.None? ==> fbs == []
    ensures response.Some? ==> fbs == response.value
  {
    match response
    case None => []
    case Some(list) => list
  }

  /** An entry the kernel will use whose base or length is not a multiple of the page size. */
  predicate Misaligned(e: MemmapEntry) {
    Reclaimable(e) && (e.base % 4096 != 0 || e.length % 4096 != 0)
  }

  /** Whether some entry is misaligned, looking at each in turn (`any`). */
  function AnyMisaligned(entries: seq<MemmapEntry>): (b: bool)
    ensures b <==> exists i :: 0 <= i < |entries| && Misaligned(entries[i])
  {
    if entries == [] then false
    else
      assert forall i :: 0 < i < |entries| ==> entries[i] == entries[1..][i - 1];
      Misaligned(entries[0]) || AnyMisaligned(entries[1..])
  }

  /** The memory map and whether the kernel warns that it is not page-aligned. */
  datatype MemoryMap = MemoryMap(entries: seq<MemmapEntry>, warned: bool)

  /**
   * `memory_map`: without an answer the kernel dies; otherwise the map is
   * handed on unchanged, with a warning (never a failure) when a usable or
   * reclaimable entry is not page-aligned.
   */
  function ReadMemoryMap(response: Option<seq<MemmapEntry>>): (r: Result<MemoryMap, Fatal>)
    ensures r.Err? <==> response.None?
    ensures r.Err? ==> r.error == NoMemoryMap
    ensures r.Ok? ==> r.value.entries == response.value
    ensures r.Ok? ==> (r.value.warned <==> exists i :: 0 <= i < |response.value| && Misaligned(response.value[i]))
  {
    match response
    case None => Err(NoMemoryMap)
    case Some(entries) => Ok(MemoryMap(entries, AnyMisaligned(entries)))
  }

  /** `/`. */
  const SLASH: Byte := 0x2F

  /** The bytes `fabric_init`. */
  const INIT_NAME: seq<Byte> := [0x66, 0x61, 0x62, 0x72, 0x69, 0x63, 0x5F, 0x69, 0x6E, 0x69, 0x74]

  /** `rposition`: the index of the last slash, if any. */
  function LastSlash(path: seq<Byte>): (r: Option<nat>)
    ensures r.Some? ==> r.value < |path| && path[r.value] == SLASH
    ensures r.Some? ==> forall i :: r.value < i < |path| ==> path[i] != SLASH
    ensures r.None? ==> forall i :: 0 <= i < |path| ==> path[i] != SLASH
  {
    if path == [] then None
    else if path[|path| - 1] == SLASH then Some(|path| - 1)
    else LastSlash(path[..|path| - 1])
  }

  /** A module's file name: what follows the last slash of its path, or the whole path. */
  function FileName(path: seq<Byte>): (name: seq<Byte>)
  {
    match LastSlash(path)
    case None => path
    case Some(pos) => path[pos + 1..]
  }

  /**
   * The file name is the tail of the path that holds no slash and is
   * either the whole path or preceded by a slash.
   */
  lemma FileNameIsTail(path: seq<Byte>)
    ensures |FileName(path)| <= |path| && FileName(path) == path[|path| - |FileName(path)|..]
    ensures forall i :: 0 <= i < |FileName(path)| ==> FileName(path)[i] != SLASH
    ensures |FileName(path)| == |path| || path[|path| - |FileName(path)| - 1] == SLASH
  {
  }

  /** A module loaded by the bootloader: its path and where its bytes are. */
  datatype File = File(path: seq<Byte>, address: nat, size: nat)

  predicate IsInit(f: File) {
    FileName(f.path) == INIT_NAME
  }

  /** `find`: the index of the first module named `fabric_init`. */
  function FindInit(files: seq<File>): (r: Option<nat>)
    ensures r.Some? ==> r.value < |files| && IsInit(files[r.value])
    ensures r.Some? ==> forall j :: 0 <= j < r.value ==> !IsInit(files[j])
    ensures r.None? ==> forall j :: 0 <= j < |files| ==> !IsInit(files[j])
  {
    if files == [] then None
    else if IsInit(files[0]) then Some(0)
    else
      var rest := FindInit(files[1..]);
      assert forall j :: 0 < j < |files| ==> files[j] == files[1..][j - 1];
      if rest.None? then None else Some(rest.value + 1)
  }

  /**
   * `fabric_init`: the bytes of the first module named `fabric_init`. The
   * kernel dies when the module request was not answered or when no module
   * has that name.
   */
  function FabricInit(response: Option<seq<File>>): (r: Result<File, Fatal>)
    ensures response.None? ==> r == Err(NoModules)
    ensures response.Some? && r.Err? ==> r.error == NoInitModule
    ensures response.Some? ==> (r.Ok? <==> exists j :: 0 <= j < |response.value| && IsInit(response.value[j]))
    ensures r.Ok? ==> IsInit(r.value) && r.value in response.value
  {
    match response
    case None => Err(NoModules)
    case Some(files) =>
      match FindInit(files)
      case None => Err(NoInitModule)
      case Some(i) => Ok(files[i])
  }

  /** A module whose path ends in `/fabric_init` is found, even if another module's path merely contains that name. */
  lemma InitFoundByFileName()
    ensures FabricInit(Some([File([0x62, SLASH] + INIT_NAME + [SLASH, 0x78], 0, 0), File([0x61, SLASH] + INIT_NAME, 1, 2)])) ==
      Ok(File([0x61, SLASH] + INIT_NAME, 1, 2))
  {
    var first := [0x62, SLASH] + INIT_NAME + [SLASH, 0x78];
    assert FileName(first) == [0x78] by {
      LastSlashIsLast(first, |first| - 2);
    }
    var second := [0x61, SLASH] + INIT_NAME;
    assert FileName(second) == INIT_NAME by {
      assert forall i :: 1 < i < |second| ==> second[i] != SLASH;
      LastSlashIsLast(second, 1);
      assert second[2..] == INIT_NAME;
    }
    var files := [File(first, 0, 0), File(second, 1, 2)];
    assert !IsInit(files[0]);
    assert IsInit(files[1]);
    assert FindInit(files[1..]) == Some(0);
    assert FindInit(files) == Some(1);
  }

  /** The last slash is the one with no slash after it. */
  lemma LastSlashIsLast(path: seq<Byte>, k: nat)
    requires k < |path| && path[k] == SLASH
    requires forall i :: k < i < |path| ==> path[i] != SLASH
    ensures LastSlash(path) == Some(k)
  {
    var r := LastSlash(path);
    assert r.Some?;
    if r.value < k {
      assert false;
    } else if r.value > k {
      assert false;
    }
  }

  /** The answer to the kernel-address request. */
  datatype KernelAddress = KernelAddress(physicalBase: nat, virtualBase: nat)

  /** The kernel's physical address and whether the kernel warns about where it was loaded. */
  datatype KernelLocation = KernelLocation(physicalBase: nat, warned: bool)

  /**
   * `kernel_physical_address`: the physical base, which is returned even
   * when the kernel was not loaded at the virtual address it was linked at
   * (that only earns a warning); without an answer the kernel dies.
   */
  function KernelPhysicalAddress(response: Option<KernelAddress>, imageBegin: nat): (r: Result<KernelLocation, Fatal>)
    ensures r.Err? <==> response.None?
    ensures r.Err? ==> r.error == NoKernelAddress
    ensures r.Ok? ==> r.value.physicalBase == response.value.physicalBase
    ensures r.Ok? ==> (r.value.warned <==> response.value.virtualBase != imageBegin)
  {
    match response
    case None => Err(NoKernelAddress)
    case Some(a) => Ok(KernelLocation(a.physicalBase, a.virtualBase != imageBegin))
  }
}
