/** `randombytes_sysrandom_random_dev_open`: choose the entropy device.

    The `access(path, F_OK | R_OK)` probe and the `open(path, O_RDONLY)` call
    are parameters: what they would answer on the host at hand. */
module Device {

  /** The build toggle `USE_BLOCKING_RANDOM`. */
  datatype Config = NonBlocking | BlockingRandom

  /** The fixed priority list of candidate devices. */
  function Devices(config: Config): (ds: seq<string>)
    // the `do … while` inspects a first entry before testing for the end
    ensures |ds| >= 1
    // every build falls back on /dev/random last, and lists it only once
    ensures ds[|ds| - 1] == "/dev/random"
    ensures forall i :: 0 <= i < |ds| - 1 ==> ds[i] != "/dev/random"
  {
    match config
    case NonBlocking => ["/dev/arandom", "/dev/urandom", "/dev/random"]
    case BlockingRandom => ["/dev/random"]
  }

  /** Walk the candidates in order; the first one the probe accepts is
      opened and whatever `open` returns is the answer, even a failure. */
  function OpenFirst(devices: seq<string>, accessible: string -> bool, open: string -> int): (fd: int)
    // no accessible device: -1
    ensures (forall i :: 0 <= i < |devices| ==> !accessible(devices[i])) ==> fd == -1
    // otherwise the open result of the first accessible device, and nothing later is tried
    ensures forall i :: 0 <= i < |devices| && accessible(devices[i])
                        && (forall j :: 0 <= j < i ==> !accessible(devices[j]))
                        ==> fd == open(devices[i])
    decreases |devices|
  {
    if |devices| == 0 then -1
    else if accessible(devices[0]) then open(devices[0])
    else OpenFirst(devices[1..], accessible, open)
  }

  /** `randombytes_sysrandom_random_dev_open()` on a host whose probe and
      open answer as given. */
  function RandomDevOpen(config: Config, accessible: string -> bool, open: string -> int): (fd: int)
    ensures (forall d :: d in Devices(config) ==> !accessible(d)) ==> fd == -1
    ensures fd != -1 ==> exists d :: d in Devices(config) && accessible(d) && fd == open(d)
    // the device opened is the first accessible one in priority order
    ensures forall i :: 0 <= i < |Devices(config)| && accessible(Devices(config)[i])
                        && (forall j :: 0 <= j < i ==> !accessible(Devices(config)[j]))
                        ==> fd == open(Devices(config)[i])
  {
    var ds := Devices(config);
    var fd := OpenFirst(ds, accessible, open);
    assert fd != -1 ==> exists i :: 0 <= i < |ds| && accessible(ds[i]) && fd == open(ds[i]) by {
      if fd != -1 {
        FirstAccessibleExists(ds, accessible, open);
      }
    }
    fd
  }

  /** When `OpenFirst` did not fail, some accessible device produced its result. */
  lemma {:induction false} FirstAccessibleExists(devices: seq<string>, accessible: string -> bool, open: string -> int)
    requires OpenFirst(devices, accessible, open) != -1
    ensures exists i :: 0 <= i < |devices| && accessible(devices[i])
                        && OpenFirst(devices, accessible, open) == open(devices[i])
    decreases |devices|
  {
    if !accessible(devices[0]) {
      FirstAccessibleExists(devices[1..], accessible, open);
      var i :| 0 <= i < |devices[1..]| && accessible(devices[1..][i])
               && OpenFirst(devices[1..], accessible, open) == open(devices[1..][i]);
      assert devices[i + 1] == devices[1..][i];
    }
  }

  /** An `open` failure on an accessible device is final: the devices after
      it are not tried. */
  lemma OpenFailureNotRetried(config: Config, accessible: string -> bool, open: string -> int, i: nat)
    requires i < |Devices(config)| && accessible(Devices(config)[i])
    requires forall j :: 0 <= j < i ==> !accessible(Devices(config)[j])
    requires open(Devices(config)[i]) == -1
    ensures RandomDevOpen(config, accessible, open) == -1
  {
  }
}
