/** The typed messages of ipc-protocol/src, one datatype per direction of each namespace,
    and the raw message that carries them. */
module IpcMessages {
  import opened Bits
  import opened Options

  type U32 = n: nat | n < 0x1_0000_0000

  const MSG_MAX_WORDS := 6

  datatype RawMessage = RawMessage(tag: U64, words: seq<U64>)
  type SmallMessage = m: RawMessage | |m.words| <= MSG_MAX_WORDS witness RawMessage(0, [])

  datatype Namespace = Fs | Driver | Display | NetBypass | Mm | Security

  datatype DecodeError = WrongNamespace | VersionMismatch | UnknownOpcode | Truncated | BadField

  datatype Decoded<+T> = Ok(value: T) | Err(error: DecodeError) {
    predicate IsFailure() {
      Err?
    }

    function PropagateFailure<V>(): Decoded<V>
      requires Err?
    {
      Err(error)
    }

    function Extract(): T
      requires Ok?
    {
      value
    }
  }

  datatype Check = Pass | Fail(error: DecodeError) {
    predicate IsFailure() {
      Fail?
    }

    function PropagateFailure<V>(): Decoded<V>
      requires Fail?
    {
      Err(error)
    }
  }

  /** Six flag bits are defined. */
  type OpenFlags = n: nat | n < 64

  datatype FsErrorCode = NotFound | Denied | BadHandle | BadPath | Unsupported | BadSharedRegion | Io

  datatype FsRequest =
    | Open(path: U32, flags: OpenFlags)
    | Read(handle: U32, offset: U64, len: U32, shared_cap: U32)
    | Write(handle: U32, offset: U64, len: U32, shared_cap: U32)
    | Stat(path: U32)
    | Close(handle: U32)

  datatype FsResponse =
    | Opened(handle: U32)
    | Read(bytes: U32)
    | Written(bytes: U32)
    | Stat(size: U64, is_dir: bool)
    | Closed
    | Error(code: FsErrorCode)

  datatype DriverErrorCode = ProbeFailed | OutOfRange | BadSharedRegion | DeviceIo | Unsupported | NoData | DriverBusy

  datatype DriverRequest =
    | Probe
    | Irq(line: U32)
    | ReadBlocks(lba: U64, sector_count: U32, shared_cap: U32)
    | WriteBlocks(lba: U64, sector_count: U32, shared_cap: U32)
    | Quiesce
    | SendFrame(len: U32)
    | PollFrame

  datatype DriverResponse =
    | Ready(sector_size: U32, sector_count: U64)
    | Completed(sectors: U32)
    | Failed(code: DriverErrorCode)
    | FrameSent
    | FrameReceived(len: U32)

  datatype DisplayErrorCode = BadSurface | BadBuffer | Unsupported

  datatype DisplayRequest =
    | CreateSurface
    | CommitBuffer(surface: U32, buffer_cap: U32, width: U32, height: U32)
    | DestroySurface(surface: U32)
    | SubscribeInput
    | QueryOutputs

  datatype DisplayResponse =
    | SurfaceCreated(surface: U32)
    | Committed
    | Destroyed
    | InputSubscribed
    | OutputTopology(output_count: U32, primary_width: U32, primary_height: U32, primary_refresh_mhz: U32)
    | Error(code: DisplayErrorCode)

  datatype ReclaimClass = Protected | Normal | Sacrificial

  datatype ComputeKind = Cpu | Gpu | Npu | Tpu | Fpga

  datatype MmErrorCode = Unsupported

  datatype MmRequest =
    | Register(thread: U32, resident_bytes: U64, class_: ReclaimClass)
    | Unregister(thread: U32)
    | QueryVictim
    | QueryTotalResident
    | RegisterSwapRegion(thread: U32, region_id: U32, bytes: U64, last_touched_ns: U64)
    | UnregisterSwapRegion(thread: U32, region_id: U32)
    | QuerySwapVictim
    | RegisterComputePool(pool_id: U32, kind: ComputeKind, capacity_bytes: U64, used_bytes: U64)
    | QueryComputePool(bytes: U64, preferred_kind: Option<ComputeKind>)

  datatype MmResponse =
    | Registered
    | Unregistered
    | Victim(thread: U32)
    | TotalResident(bytes: U64)
    | SwapRegionRegistered
    | SwapRegionUnregistered
    | SwapVictim(thread: U32, region_id: U32)
    | ComputePoolRegistered
    | ComputePoolChosen(pool_id: U32)
    | Error(code: MmErrorCode)

  datatype NetBypassRequest =
    | RequestDirectNic(nic_id: U32)
    | Release(handle: U32)
    | RelayFrame

  datatype NetBypassResponse =
    | Granted(handle: U32, rx_ring_cap: U32, tx_ring_cap: U32, ring_len: U32)
    | Denied
    | Released
    | Relayed

  datatype SecurityErrorCode = Unsupported | UnknownService | KernelRejected

  datatype SecurityRequest =
    | CapGrant(target_service: U32, cap: U32, rights: U32)
    | CapRevoke(cap: U32)

  datatype SecurityResponse =
    | Granted(dst: U32)
    | Revoked(freed: U32)
    | Error(code: SecurityErrorCode)
}
