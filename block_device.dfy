/**
 * Pure helpers of the block-device layer (blk/BlockDevice.cc): the I/O range
 * check, the access-mode choice and the device-type lookup by name.
 */
module BlockDevice {
  import opened MachineInt

  datatype AccessMode = Buffered | Direct

  /** buffermode: buffered I/O or direct I/O. */
  function Buffermode(buffered: bool): (m: AccessMode)
    ensures buffered <==> m == Buffered
    ensures !buffered <==> m == Direct
  {
    if buffered then Buffered else Direct
  }

  datatype DeviceType = Unknown | Aio | Spdk | Pmem | HmSmr

  /** The optional back ends this build was compiled with. */
  datatype BuildConfig = BuildConfig(libaio: bool, spdk: bool, pmem: bool, libzbd: bool)

  /** Whether the back end `t` exists in a build with configuration `cfg`. */
  predicate Compiled(t: DeviceType, cfg: BuildConfig)
  {
    match t
    case Unknown => false
    case Aio => cfg.libaio
    case Spdk => cfg.spdk
    case Pmem => cfg.pmem
    case HmSmr => cfg.libaio && cfg.libzbd
  }

  /** The bdev_type name of each back end. */
  function TypeName(t: DeviceType): string
  {
    match t
    case Unknown => "unknown"
    case Aio => "aio"
    case Spdk => "spdk"
    case Pmem => "pmem"
    case HmSmr => "hm_smr"
  }

  /**
   * device_type_from_name: the compiled-in back end the name denotes, and
   * `Unknown` for every other name.
   */
  function DeviceTypeFromName(name: string, cfg: BuildConfig): (t: DeviceType)
    ensures t != Unknown ==> Compiled(t, cfg) && TypeName(t) == name
    ensures forall d: DeviceType :: Compiled(d, cfg) && TypeName(d) == name ==> t == d
  {
    if cfg.libaio && name == "aio" then Aio
    else if cfg.spdk && name == "spdk" then Spdk
    else if cfg.pmem && name == "pmem" then Pmem
    else if cfg.libaio && cfg.libzbd && name == "hm_smr" then HmSmr
    else Unknown
  }

  /** The name of a compiled-in back end maps back to that back end. */
  lemma DeviceTypeNameRoundTrip(t: DeviceType, cfg: BuildConfig)
    requires Compiled(t, cfg)
    ensures DeviceTypeFromName(TypeName(t), cfg) == t
  {
  }

  /**
   * is_valid_io as written: offset and length block-aligned, length non-zero,
   * offset inside the device, and off + len, computed in uint64_t, at most
   * the device size.
   */
  function IsValidIoAsWritten(off: u64, len: u64, blockSize: u64, size: u64): (r: bool)
    requires blockSize > 0
    ensures r ==> blockSize <= len && off < size
    ensures r ==> off + len <= size || off + len >= U64_MOD
  {
    if off % blockSize == 0 && len % blockSize == 0 && len > 0 then
      AlignedAtLeastOneBlock(len, blockSize);
      off < size && Add64(off, len) <= size
    else
      false
  }

  /**
   * A block-aligned request that starts inside the device and runs past the
   * end of the 64-bit address space passes the check as written: the sum
   * wraps to 0.
   */
  lemma IsValidIoAsWrittenAcceptsWrappedRange()
    ensures IsValidIoAsWritten(4096, U64_MOD - 4096, 4096, 8192)
    ensures 4096 + (U64_MOD - 4096) > 8192
  {
  }

  /** is_valid_io with off + len computed without wrap-around. */
  function IsValidIo(off: u64, len: u64, blockSize: u64, size: u64): (r: bool)
    requires blockSize > 0
    ensures r ==> blockSize <= len && off + len <= size
  {
    if off % blockSize == 0 && len % blockSize == 0 && len > 0 then
      AlignedAtLeastOneBlock(len, blockSize);
      off < size && off + len <= size
    else
      false
  }

  /** A non-zero multiple of the block size is at least one block. */
  lemma AlignedAtLeastOneBlock(n: nat, m: nat)
    requires m > 0 && n > 0 && n % m == 0
    ensures m <= n
  {
    assert n == m * (n / m);
  }

  /**
   * A request the corrected check accepts is non-empty, starts and ends on a
   * block boundary, and lies entirely inside [0, size).
   */
  lemma ValidIoWithinDevice(off: u64, len: u64, blockSize: u64, size: u64, b: int)
    requires blockSize > 0
    requires IsValidIo(off, len, blockSize, size)
    requires off <= b < off + len
    ensures 0 <= b < size
    ensures (off + len) % blockSize == 0
  {
    AlignedSum(off, len, blockSize);
  }

  /** The sum of two multiples of `m` is a multiple of `m`. */
  lemma AlignedSum(a: nat, b: nat, m: nat)
    requires m > 0 && a % m == 0 && b % m == 0
    ensures (a + b) % m == 0
  {
    var t := a / m + b / m - (a + b) / m;
    assert m * t == (a + b) % m;
  }

  /** Both versions agree on every request whose end does not overflow 64 bits. */
  lemma IsValidIoAgreesWithoutWrap(off: u64, len: u64, blockSize: u64, size: u64)
    requires blockSize > 0
    requires off + len < U64_MOD
    ensures IsValidIoAsWritten(off, len, blockSize, size) == IsValidIo(off, len, blockSize, size)
  {
  }

  /** The corrected check accepts nothing the check as written rejects. */
  lemma IsValidIoStricter(off: u64, len: u64, blockSize: u64, size: u64)
    requires blockSize > 0
    requires IsValidIo(off, len, blockSize, size)
    ensures IsValidIoAsWritten(off, len, blockSize, size)
  {
  }
}
