/**
 * Values exchanged by the EFS volume driver: volume records, the request
 * options, the responses of the lifecycle calls, the calls the driver makes
 * on its mounter, and the outcomes of the operating-system calls it depends on.
 */
module Types {

  datatype Option<+T> = None | Some(value: T)

  datatype Result<+T> = Ok(value: T) | Err(error: string)

  /** The public part of a volume record (`voldriver.VolumeInfo`). */
  datatype VolumeInfo = VolumeInfo(name: string, mountpoint: string, mountCount: int)

  /** A registry record: the remote address and the public part (`EfsVolumeInfo`). */
  datatype EfsVolumeInfo = EfsVolumeInfo(ip: string, volume: VolumeInfo)

  /** The registry map, volume name to record. */
  type Volumes = map<string, EfsVolumeInfo>

  /**
   * What the state file is known to hold: the map last written in full, or
   * nothing certain, after a write that failed part-way (`WriteFile` truncates
   * the file before writing it).
   */
  datatype StateFile = Written(content: Volumes) | Indeterminate

  /**
   * A value of the loosely typed `Opts` map of a create request: only a string
   * passes the `opts["ip"].(string)` type assertion.
   */
  datatype OptValue = Str(s: string) | NonString

  type Opts = map<string, OptValue>

  datatype ErrorResponse = ErrorResponse(err: string)
  datatype MountResponse = MountResponse(mountpoint: string, err: string)
  datatype PathResponse = PathResponse(mountpoint: string, err: string)
  datatype GetResponse = GetResponse(volume: VolumeInfo, err: string)
  datatype ListResponse = ListResponse(volumes: seq<VolumeInfo>, err: string)
  datatype ActivateResponse = ActivateResponse(implements: seq<string>)
  datatype CapabilitiesResponse = CapabilitiesResponse(scope: string)

  /** One invocation of the `Mounter` interface, with its arguments. */
  datatype MounterCall =
    | PhysicalMount(source: string, target: string, fstype: string, flags: int, data: string)
    | PhysicalUnmount(target: string, flags: int)

  /** What `os.Stat` reports for a path. */
  datatype StatResult = Present | NotExist | StatFailed(error: string)

  /** Outcomes of the calls made by a physical mount: `MkdirAll`, then `Mounter.Mount`. */
  datatype MountEnv = MountEnv(mkdirErr: Option<string>, mounterErr: Option<string>)

  /** Outcomes of the calls made by a physical unmount: `Stat`, `Mounter.Unmount`, `RemoveAll`. */
  datatype UnmountEnv = UnmountEnv(stat: StatResult, unmountErr: Option<string>, removeAllErr: Option<string>)

  const MissingName := "Missing mandatory 'volume_name'"
  const MissingIp := "Missing mandatory 'ip' field in 'Opts'"
  const NotMounted := "Volume not previously mounted"
}
