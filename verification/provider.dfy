/** The POSIX provider: the process-wide `SysRandom` record and the
    operations that move it between "no device" and "device open".

    The record is passed in and returned rather than mutated. What the
    operating system would answer (which devices exist, what `open`,
    `read` and `close` return) comes in as parameters; `abort()` is the
    `Aborted` outcome and a `read` that has not returned yet is `Pending`. */
module Provider {
  import opened Word
  import opened SafeRead
  import opened Device

  /** The `SysRandom` record: the device descriptor (-1 when none) and
      whether the provider has been initialised. */
  datatype SysRandom = SysRandom(fd: int, initialized: bool)

  /** The static initialiser of `stream`. */
  const Initial: SysRandom := SysRandom(-1, false)

  /** The record's invariant: initialised exactly when a descriptor is held. */
  predicate Valid(s: SysRandom)
  {
    s.initialized <==> s.fd != -1
  }

  /** The host: the build's device list and what `access` and `open` answer
      for each path. */
  datatype Host = Host(config: Config, accessible: string -> bool, open: string -> int)

  /** The fd `randombytes_sysrandom_random_dev_open()` gives on this host. */
  function DeviceFd(host: Host): int
  {
    RandomDevOpen(host.config, host.accessible, host.open)
  }

  /** How a call ends: the process aborts, the call is still blocked in
      `read`, or it returns a value together with the new record. */
  datatype Run<T> = Aborted | Pending | Returned(state: SysRandom, value: T)

  /** `randombytes_sysrandom_init()`: store the device descriptor, or abort
      when no device could be opened. */
  function Init(s: SysRandom, host: Host): (r: Run<()>)
    ensures r.Aborted? <==> DeviceFd(host) == -1
    // in particular when no device passes the probe
    ensures (forall d :: d in Devices(host.config) ==> !host.accessible(d)) ==> r.Aborted?
    ensures r.Returned? ==>
              && r.state.fd != -1 && r.state.initialized == s.initialized
              && exists d :: d in Devices(host.config) && host.accessible(d) && r.state.fd == host.open(d)
    // only the descriptor changes, and it becomes the one device selection gave
    ensures r.Returned? ==> r.state == s.(fd := DeviceFd(host))
  {
    var fd := DeviceFd(host);
    if fd == -1 then Aborted else Returned(s.(fd := fd), ())
  }

  /** `randombytes_sysrandom_stir()`: initialise once. */
  function Stir(s: SysRandom, host: Host): (r: Run<()>)
    ensures !r.Pending?
    // already initialised: nothing changes
    ensures s.initialized ==> r == Returned(s, ())
    // otherwise: abort, or a live descriptor and the flag set
    ensures !s.initialized ==> (r.Aborted? <==> DeviceFd(host) == -1)
    ensures !s.initialized && r.Returned? ==> r.state == SysRandom(DeviceFd(host), true)
    // the invariant is established or kept
    ensures r.Returned? && (Valid(s) || !s.initialized) ==> Valid(r.state) && r.state.initialized
  {
    if !s.initialized then
      var init := Init(s, host);
      if init.Returned? then Returned(init.state.(initialized := true), ()) else Aborted
    else Returned(s, ())
  }

  /** `randombytes_sysrandom_stir_if_needed()`: the lazy entry point. */
  function StirIfNeeded(s: SysRandom, host: Host): (r: Run<()>)
    ensures r == Stir(s, host)
  {
    if !s.initialized then Stir(s, host) else Returned(s, ())
  }

  /** Stirring is idempotent: a second stir changes nothing. */
  lemma StirIdempotent(s: SysRandom, host: Host)
    requires Stir(s, host).Returned?
    ensures Stir(Stir(s, host).state, host) == Stir(s, host)
  {
  }

  /** The outcome of `randombytes_sysrandom_close()`: its return value and
      the record afterwards. */
  datatype Closed = Closed(ret: int, state: SysRandom)

  /** `randombytes_sysrandom_close()`; `closeResult` is what `close(fd)`
      would return (it is only called when a descriptor is held). */
  function Close(s: SysRandom, closeResult: int): (c: Closed)
    ensures c.ret == 0 || c.ret == -1
    // success exactly when a descriptor is held and the OS closes it
    ensures c.ret == 0 <==> s.fd != -1 && closeResult == 0
    // success resets the record to its initial value
    ensures c.ret == 0 ==> c.state == Initial
    // failure leaves it untouched
    ensures c.ret == -1 ==> c.state == s
    ensures Valid(s) ==> Valid(c.state)
  {
    if s.fd != -1 && closeResult == 0 then Closed(0, SysRandom(-1, false))
    else Closed(-1, s)
  }

  /** `randombytes_sysrandom_buf(buf, size)`: initialise if needed, drain
      `size` bytes with `safe_read`, and abort unless exactly `size` came. */
  function Buf(s: SysRandom, host: Host, script: seq<ReadCall>, size: nat): (r: Run<seq<byte>>)
    // completing means exactly `size` bytes, those `safe_read` delivered
    ensures r.Returned? ==> |r.value| == size && Drain(script, size) == Finished(r.value)
    ensures r.Returned? ==> Stir(s, host).Returned? && r.state == Stir(s, host).state
    ensures r.Returned? && (Valid(s) || !s.initialized) ==> Valid(r.state) && r.state.initialized
    // every failure aborts: no device, a failed read, or too few bytes
    ensures r.Aborted? <==>
              || Stir(s, host).Aborted?
              || (Stir(s, host).Returned?
                  && (Drain(script, size).ReadError?
                      || (Drain(script, size).Finished? && |Drain(script, size).bytes| != size)))
    ensures r.Pending? <==> Stir(s, host).Returned? && Drain(script, size).Starved?
  {
    var stirred := StirIfNeeded(s, host);
    if !stirred.Returned? then Aborted
    else
      var d := Drain(script, size);
      if d.Starved? then Pending
      else if ReturnValue(d) != size then Aborted
      else Returned(stirred.state, d.bytes)
  }

  /** `randombytes_sysrandom()`: four bytes from `Buf`, read as a `uint32_t`
      in the host's byte order. */
  function Random(s: SysRandom, host: Host, order: ByteOrder, script: seq<ReadCall>): (r: Run<uint32>)
    ensures r.Returned? ==>
              && Drain(script, 4).Finished?
              && Encode32(order, r.value) == Drain(script, 4).bytes
    ensures r.Aborted? == Buf(s, host, script, 4).Aborted?
    ensures r.Pending? == Buf(s, host, script, 4).Pending?
    // the record ends as the 4-byte fill leaves it
    ensures r.Returned? ==> r.state == Buf(s, host, script, 4).state
  {
    var stirred := StirIfNeeded(s, host);
    if !stirred.Returned? then Aborted
    else
      match Buf(stirred.state, host, script, 4)
      case Returned(s2, b) =>
        EncodeDecode(order, b);
        Returned(s2, Decode32(order, b))
      case Pending => Pending
      case Aborted => Aborted
  }

  /** `randombytes_sysrandom_implementation_name()`. */
  function ImplementationName(): (name: string)
    ensures name == "sysrandom"
  {
    "sysrandom"
  }

  // ---------------------------------------------------------------------
  // Whole call sequences.

  /** A call into the provider, with what the OS answers during it. */
  datatype Call =
    | StirCall
    | CloseCall(closeResult: int)
    | BufCall(size: nat, script: seq<ReadCall>)

  /** A held descriptor is the one device selection gives on this host. */
  predicate HoldsDevice(s: SysRandom, host: Host)
  {
    s.initialized ==> s.fd == DeviceFd(host)
  }

  /** One call. */
  function Step(s: SysRandom, host: Host, call: Call): (r: Run<()>)
    requires Valid(s)
    ensures r.Returned? ==> Valid(r.state)
    ensures r.Returned? && HoldsDevice(s, host) ==> HoldsDevice(r.state, host)
    // `initialized` only goes from set to clear through a successful close
    ensures r.Returned? && s.initialized && !r.state.initialized ==>
              call.CloseCall? && Close(s, call.closeResult).ret == 0
    // and only goes from clear to set by opening the device
    ensures r.Returned? && !s.initialized && r.state.initialized ==>
              !call.CloseCall? && r.state.fd == DeviceFd(host)
  {
    match call
    case StirCall =>
      var t := Stir(s, host);
      if t.Returned? then Returned(t.state, ()) else Aborted
    case CloseCall(res) => Returned(Close(s, res).state, ())
    case BufCall(size, script) =>
      var t := Buf(s, host, script, size);
      if t.Returned? then Returned(t.state, ()) else if t.Pending? then Pending else Aborted
  }

  /** Run a sequence of calls from record `s`, stopping at the first call
      that aborts or blocks. One host answers for every call: its probe
      answers do not change and reopening a path gives the same descriptor. */
  function Exec(s: SysRandom, host: Host, calls: seq<Call>): (r: Run<()>)
    requires Valid(s)
    ensures r.Returned? ==> Valid(r.state)
    // whatever was opened, closed and reopened, a held descriptor is the selected device's
    ensures r.Returned? && HoldsDevice(s, host) ==> HoldsDevice(r.state, host)
    decreases |calls|
  {
    if |calls| == 0 then Returned(s, ())
    else
      var step := Step(s, host, calls[0]);
      if !step.Returned? then step
      else
        var rest := Exec(step.state, host, calls[1..]);
        rest
  }

  /** Closing a provider that never opened a device fails and changes nothing. */
  lemma CloseBeforeInit(closeResult: int)
    ensures Close(Initial, closeResult) == Closed(-1, Initial)
  {
  }

  /** After a successful close a second close fails, whatever `close(2)`
      would say, because no descriptor is held any more. */
  lemma {:induction false} CloseTwice(s: SysRandom, first: int, second: int)
    requires Close(s, first).ret == 0
    ensures Close(Close(s, first).state, second) == Closed(-1, Initial)
  {
  }

  /** Close then use reinitialises: the next `Buf` after a successful close
      opens the device afresh. */
  lemma CloseThenBufReopens(s: SysRandom, closeResult: int, host: Host, script: seq<ReadCall>, size: nat)
    requires Close(s, closeResult).ret == 0
    requires Buf(Close(s, closeResult).state, host, script, size).Returned?
    ensures Buf(Close(s, closeResult).state, host, script, size).state == SysRandom(DeviceFd(host), true)
  {
  }

  /** A fresh provider reading the bytes 01 02 03 04 on a little-endian host
      returns 0x04030201, after opening the device. */
  lemma RandomLittleEndianExample(host: Host)
    requires DeviceFd(host) == 3
    ensures Random(Initial, host, LittleEndian, [Got([1, 2, 3, 4])]) == Returned(SysRandom(3, true), 0x04030201)
  {
  }

  /** With no device available the first call that needs entropy aborts. */
  lemma NoDeviceAborts(host: Host, script: seq<ReadCall>, size: nat)
    requires forall d :: d in Devices(host.config) ==> !host.accessible(d)
    ensures Buf(Initial, host, script, size) == Aborted
  {
  }
}
