/**
 * The volume registry of the EFS driver as pure functions over one value: the
 * in-memory map, the snapshot last written to the state file, and the log of
 * calls made on the mounter. Each lifecycle call is a function from the state
 * before the call (and the outcomes of the operating-system calls it makes) to
 * the state after it and the response; its contract says what the driver
 * promises about that call.
 */
module Registry {
  import opened Types

  /**
   * `volumes` is the driver's map, `persisted` what the state file holds as
   * last written, `calls` every call made on the mounter so far, in order.
   */
  datatype State = State(volumes: Volumes, persisted: StateFile, calls: seq<MounterCall>)

  /**
   * The registry invariant, for a registry rooted at `root`: keys are non-empty
   * and equal the record's name, counts are never negative, a volume has a
   * mount point exactly when its count is positive, and that mount point is the
   * volume's own path under the root.
   */
  predicate Valid(root: string, volumes: Volumes)
  {
    forall n :: n in volumes ==> RecordValid(root, n, volumes[n])
  }

  predicate RecordValid(root: string, n: string, v: EfsVolumeInfo)
  {
    && n != ""
    && v.volume.name == n
    && v.volume.mountCount >= 0
    && (v.volume.mountCount > 0 <==> v.volume.mountpoint != "")
    && (v.volume.mountpoint != "" ==> v.volume.mountpoint == MountPath(root, n))
  }

  /** `mountPath`: the volume's directory under the root. */
  function MountPath(root: string, name: string): (path: string)
  {
    root + "/" + name
  }

  /** Distinct volumes get distinct, non-empty mount paths. */
  lemma MountPathDistinct(root: string, a: string, b: string)
    ensures MountPath(root, a) != ""
    ensures MountPath(root, a) == MountPath(root, b) ==> a == b
  {
    if MountPath(root, a) == MountPath(root, b) {
      assert MountPath(root, a)[|root| + 1..] == a;
      assert MountPath(root, b)[|root| + 1..] == b;
    }
  }

  /** `getVolume`: a copy of the record, or the error "Volume not found". */
  function GetVolume(volumes: Volumes, name: string): (r: Result<EfsVolumeInfo>)
    ensures r.Ok? <==> name in volumes
    ensures r.Ok? ==> r.value == volumes[name]
    ensures r.Err? ==> r.error == "Volume not found"
  {
    if name in volumes then Ok(volumes[name]) else Err("Volume not found")
  }

  /**
   * `exists`: whether a path is there, and the error when `Stat` failed for a
   * reason other than absence (the path then counts as present).
   */
  function Exists(stat: StatResult): (r: (bool, Option<string>))
    ensures r.1.None? ==> (r.0 <==> stat.Present?)
    ensures !stat.StatFailed? ==> r == (stat.Present?, None)
    ensures stat.StatFailed? ==> r == (true, Some(stat.error))
  {
    match stat
    case Present => (true, None)
    case NotExist => (false, None)
    case StatFailed(e) => (true, Some(e))
  }

  /** The value of the `ip` option when it is present and a string. */
  function IpOption(opts: Opts): (ip: Option<string>)
  {
    if "ip" in opts && opts["ip"].Str? then Some(opts["ip"].s) else None
  }

  /**
   * `mount`: create the directory, then call the mounter with source `ip:/`,
   * file-system type nfs4 and data "rw". Returns the mounter calls made and the
   * error, if any.
   */
  function MountVolume(ip: string, path: string, env: MountEnv): (r: (seq<MounterCall>, Option<string>))
    ensures r.1.None? <==> env.mkdirErr.None? && env.mounterErr.None?
    ensures r.0 == if env.mkdirErr.None? then [PhysicalMount(ip + ":/", path, "nfs4", 0, "rw")] else []
    ensures env.mkdirErr.Some? ==> r.1 == env.mkdirErr
    ensures env.mkdirErr.None? ==> r.1 == env.mounterErr
  {
    if env.mkdirErr.Some? then ([], env.mkdirErr)
    else ([PhysicalMount(ip + ":/", path, "nfs4", 0, "rw")], env.mounterErr)
  }

  /**
   * `unmount`: refuse when the path cannot be checked or is gone, otherwise call
   * the mounter's unmount and remove the directory. Returns the mounter calls
   * made and the error, if any.
   */
  function UnmountVolume(name: string, path: string, env: UnmountEnv): (r: (seq<MounterCall>, Option<string>))
    ensures r.0 == if env.stat.Present? then [PhysicalUnmount(path, 0)] else []
    ensures r.1.None? <==> env.stat.Present? && env.unmountErr.None? && env.removeAllErr.None?
    ensures env.stat.StatFailed? ==> r.1 == Some("Error establishing whether volume exists")
    ensures env.stat.NotExist? ==> r.1 == Some("Volume " + name + " does not exist (path: " + path + "), nothing to do!")
    ensures env.stat.Present? && env.unmountErr.Some? ==> r.1 == Some("Error unmounting volume: " + env.unmountErr.value)
    ensures env.stat.Present? && env.unmountErr.None? && env.removeAllErr.Some? ==>
              r.1 == Some("Error creating mountpoint: " + env.removeAllErr.value)
  {
    var (present, statErr) := Exists(env.stat);
    if statErr.Some? then ([], Some("Error establishing whether volume exists"))
    else if !present then ([], Some("Volume " + name + " does not exist (path: " + path + "), nothing to do!"))
    else if env.unmountErr.Some? then ([PhysicalUnmount(path, 0)], Some("Error unmounting volume: " + env.unmountErr.value))
    else if env.removeAllErr.Some? then ([PhysicalUnmount(path, 0)], Some("Error creating mountpoint: " + env.removeAllErr.value))
    else ([PhysicalUnmount(path, 0)], None)
  }

  /**
   * `persist` after an in-memory change: the new map is written when the write
   * succeeds; when it fails nothing is known of the file any more, while memory
   * keeps the change.
   */
  function Commit(s: State, volumes: Volumes, persistErr: Option<string>): (r: State)
    ensures r.volumes == volumes && r.calls == s.calls
    ensures r.persisted == if persistErr.None? then Written(volumes) else Indeterminate
  {
    State(volumes, if persistErr.None? then Written(volumes) else Indeterminate, s.calls)
  }

  /** The response text for a persist outcome: empty, or `prefix` and the error. */
  function PersistMessage(prefix: string, persistErr: Option<string>): (message: string)
  {
    if persistErr.None? then "" else prefix + persistErr.value
  }

  /** The lookup guard shared by Mount, Unmount and Remove. */
  predicate Found(s: State, name: string)
  {
    name != "" && name in s.volumes
  }

  /** `Create`. */
  function Create(s: State, name: string, opts: Opts, persistErr: Option<string>): (r: (State, ErrorResponse))
    ensures name == "" ==> r == (s, ErrorResponse(MissingName))
    ensures name != "" && IpOption(opts).None? ==> r == (s, ErrorResponse(MissingIp))
    // a second Create of a known name succeeds and keeps the first record, ip included
    ensures Found(s, name) ==> r.0 == s && (IpOption(opts).Some? ==> r.1.err == "")
    ensures name != "" && name !in s.volumes && IpOption(opts).Some? ==>
              && r.0.volumes == s.volumes[name := EfsVolumeInfo(IpOption(opts).value, VolumeInfo(name, "", 0))]
              && r.0.persisted == (if persistErr.None? then Written(r.0.volumes) else Indeterminate)
              && r.1.err == PersistMessage("persist state failed when creating: ", persistErr)
    ensures r.0.calls == s.calls
  {
    if name == "" then (s, ErrorResponse(MissingName))
    else if IpOption(opts).None? then (s, ErrorResponse(MissingIp))
    else if GetVolume(s.volumes, name).Ok? then (s, ErrorResponse(""))
    else
      var vol := EfsVolumeInfo(IpOption(opts).value, VolumeInfo(name, "", 0));
      (Commit(s, s.volumes[name := vol], persistErr),
       ErrorResponse(PersistMessage("persist state failed when creating: ", persistErr)))
  }

  /** Whether a Mount of a known volume has to mount it physically and that fails. */
  predicate MountFails(s: State, name: string, env: MountEnv)
    requires name in s.volumes
  {
    s.volumes[name].volume.mountCount < 1 && (env.mkdirErr.Some? || env.mounterErr.Some?)
  }

  /** `Mount`. */
  function Mount(root: string, s: State, name: string, env: MountEnv, persistErr: Option<string>): (r: (State, MountResponse))
    ensures name == "" ==> r == (s, MountResponse("", MissingName))
    ensures name != "" && name !in s.volumes ==>
              r == (s, MountResponse("", "Volume '" + name + "' must be created before being mounted"))
    // Mount never adds or drops a volume, and no other volume changes
    ensures r.0.volumes.Keys == s.volumes.Keys
    ensures forall n :: n in s.volumes && n != name ==> r.0.volumes[n] == s.volumes[n]
    // the mounter is called only for the first reference
    ensures Found(s, name) && s.volumes[name].volume.mountCount < 1 ==>
              r.0.calls == s.calls + MountVolume(s.volumes[name].ip, MountPath(root, s.volumes[name].volume.name), env).0
    ensures !(Found(s, name) && s.volumes[name].volume.mountCount < 1) ==> r.0.calls == s.calls
    // a failed physical mount changes neither the map nor the state file
    ensures Found(s, name) && MountFails(s, name, env) ==>
              && r.0.volumes == s.volumes && r.0.persisted == s.persisted
              && r.1 == MountResponse("", "Error mounting volume: " +
                   MountVolume(s.volumes[name].ip, MountPath(root, s.volumes[name].volume.name), env).1.value)
    // otherwise the count goes up by one and the mount point is set and returned
    ensures Found(s, name) && !MountFails(s, name, env) ==>
              && r.0.volumes[name].ip == s.volumes[name].ip
              && r.0.volumes[name].volume.name == s.volumes[name].volume.name
              && r.0.volumes[name].volume.mountCount == s.volumes[name].volume.mountCount + 1
              && r.0.volumes[name].volume.mountpoint == MountPath(root, s.volumes[name].volume.name)
              && r.0.persisted == (if persistErr.None? then Written(r.0.volumes) else Indeterminate)
              && r.1.err == PersistMessage("persist state failed when mounting: ", persistErr)
              && r.1.mountpoint == (if persistErr.None? then MountPath(root, s.volumes[name].volume.name) else "")
  {
    if name == "" then (s, MountResponse("", MissingName))
    else
      var found := GetVolume(s.volumes, name);
      if found.Err? then (s, MountResponse("", "Volume '" + name + "' must be created before being mounted"))
      else
        var vol := found.value;
        var path := MountPath(root, vol.volume.name);
        var (issued, err) := if vol.volume.mountCount < 1 then MountVolume(vol.ip, path, env) else ([], None);
        var s1 := s.(calls := s.calls + issued);
        if err.Some? then (s1, MountResponse("", "Error mounting volume: " + err.value))
        else
          var volume := s.volumes[name];
          var updated := volume.(volume := volume.volume.(mountpoint := path, mountCount := volume.volume.mountCount + 1));
          (Commit(s1, s.volumes[name := updated], persistErr),
           if persistErr.None? then MountResponse(path, "")
           else MountResponse("", PersistMessage("persist state failed when mounting: ", persistErr)))
  }

  /** `Path`: the mount point of a mounted volume. */
  function Path(volumes: Volumes, name: string): (r: PathResponse)
    ensures name == "" ==> r == PathResponse("", MissingName)
    ensures name != "" && name !in volumes ==> r == PathResponse("", "Volume '" + name + "' not found")
    ensures name != "" && name in volumes ==>
              && (r.err == "" <==> volumes[name].volume.mountpoint != "")
              && (r.err == "" ==> r.mountpoint == volumes[name].volume.mountpoint)
              && (r.err != "" ==> r == PathResponse("", NotMounted))
  {
    if name == "" then PathResponse("", MissingName)
    else
      match GetVolume(volumes, name)
      case Err(_) => PathResponse("", "Volume '" + name + "' not found")
      case Ok(vol) =>
        if vol.volume.mountpoint == "" then PathResponse("", NotMounted)
        else PathResponse(vol.volume.mountpoint, "")
  }

  /** Whether an Unmount or Remove of a known volume finds it mounted. */
  predicate HasMountpoint(s: State, name: string)
    requires name in s.volumes
  {
    s.volumes[name].volume.mountpoint != ""
  }

  /** The physical unmount an Unmount or Remove of a mounted volume performs. */
  function UnmountOf(s: State, name: string, env: UnmountEnv): (r: (seq<MounterCall>, Option<string>))
    requires name in s.volumes
  {
    UnmountVolume(name, s.volumes[name].volume.mountpoint, env)
  }

  /** `Unmount`. */
  function Unmount(s: State, name: string, env: UnmountEnv, persistErr: Option<string>): (r: (State, ErrorResponse))
    ensures name == "" ==> r == (s, ErrorResponse(MissingName))
    ensures name != "" && name !in s.volumes ==> r == (s, ErrorResponse("Volume '" + name + "' not found"))
    ensures Found(s, name) && !HasMountpoint(s, name) ==> r == (s, ErrorResponse(NotMounted))
    ensures r.0.volumes.Keys == s.volumes.Keys
    ensures forall n :: n in s.volumes && n != name ==> r.0.volumes[n] == s.volumes[n]
    // the mounter is asked to unmount only when the last reference goes
    ensures Found(s, name) && HasMountpoint(s, name) && s.volumes[name].volume.mountCount == 1 ==>
              r.0.calls == s.calls + UnmountOf(s, name, env).0
    ensures !(Found(s, name) && HasMountpoint(s, name) && s.volumes[name].volume.mountCount == 1) ==>
              r.0.calls == s.calls
    // a failed physical unmount changes neither the map nor the state file
    ensures Found(s, name) && HasMountpoint(s, name) && s.volumes[name].volume.mountCount == 1 &&
            UnmountOf(s, name, env).1.Some? ==>
              && r.0.volumes == s.volumes && r.0.persisted == s.persisted
              && r.1.err == UnmountOf(s, name, env).1.value
    // otherwise the count drops by one, and the mount point is cleared exactly on 1 -> 0
    ensures Found(s, name) && HasMountpoint(s, name) &&
            (s.volumes[name].volume.mountCount == 1 ==> UnmountOf(s, name, env).1.None?) ==>
              && r.0.volumes[name].ip == s.volumes[name].ip
              && r.0.volumes[name].volume.name == s.volumes[name].volume.name
              && r.0.volumes[name].volume.mountCount == s.volumes[name].volume.mountCount - 1
              && r.0.volumes[name].volume.mountpoint ==
                   (if s.volumes[name].volume.mountCount == 1 then "" else s.volumes[name].volume.mountpoint)
              && r.0.persisted == (if persistErr.None? then Written(r.0.volumes) else Indeterminate)
              && r.1.err == PersistMessage("failed to persist state when unmounting: ", persistErr)
  {
    if name == "" then (s, ErrorResponse(MissingName))
    else
      match GetVolume(s.volumes, name)
      case Err(_) => (s, ErrorResponse("Volume '" + name + "' not found"))
      case Ok(vol) =>
        if vol.volume.mountpoint == "" then (s, ErrorResponse(NotMounted))
        else
          var (issued, err) := if vol.volume.mountCount == 1 then UnmountVolume(name, vol.volume.mountpoint, env) else ([], None);
          var s1 := s.(calls := s.calls + issued);
          if err.Some? then (s1, ErrorResponse(err.value))
          else
            var unmounted := vol.volume.mountCount == 1;
            var volume := s.volumes[name];
            var updated := volume.(volume := volume.volume.(
              mountpoint := if unmounted then "" else volume.volume.mountpoint,
              mountCount := volume.volume.mountCount - 1));
            (Commit(s1, s.volumes[name := updated], persistErr),
             ErrorResponse(PersistMessage("failed to persist state when unmounting: ", persistErr)))
  }

  /** `Remove`. */
  function Remove(s: State, name: string, env: UnmountEnv, persistErr: Option<string>): (r: (State, ErrorResponse))
    ensures name == "" ==> r == (s, ErrorResponse(MissingName))
    ensures name != "" && name !in s.volumes ==> r == (s, ErrorResponse("Volume '" + name + "' not found"))
    // a mounted volume is unmounted physically once, whatever its count
    ensures Found(s, name) && HasMountpoint(s, name) ==> r.0.calls == s.calls + UnmountOf(s, name, env).0
    ensures !(Found(s, name) && HasMountpoint(s, name)) ==> r.0.calls == s.calls
    // if that fails the volume stays and nothing is written
    ensures Found(s, name) && HasMountpoint(s, name) && UnmountOf(s, name, env).1.Some? ==>
              && r.0.volumes == s.volumes && r.0.persisted == s.persisted
              && r.1.err == UnmountOf(s, name, env).1.value
    // otherwise exactly that key is deleted
    ensures Found(s, name) && (HasMountpoint(s, name) ==> UnmountOf(s, name, env).1.None?) ==>
              && r.0.volumes == s.volumes - {name}
              && r.0.persisted == (if persistErr.None? then Written(r.0.volumes) else Indeterminate)
              && r.1.err == PersistMessage("failed to persist state when removing: ", persistErr)
  {
    if name == "" then (s, ErrorResponse(MissingName))
    else
      match GetVolume(s.volumes, name)
      case Err(_) => (s, ErrorResponse("Volume '" + name + "' not found"))
      case Ok(vol) =>
        var (issued, err) := if vol.volume.mountpoint != "" then UnmountVolume(name, vol.volume.mountpoint, env) else ([], None);
        var s1 := s.(calls := s.calls + issued);
        if err.Some? then (s1, ErrorResponse(err.value))
        else
          (Commit(s1, s.volumes - {name}, persistErr),
           ErrorResponse(PersistMessage("failed to persist state when removing: ", persistErr)))
  }

  /** `Get`: the name and mount point of a known volume (the count is not reported). */
  function Get(volumes: Volumes, name: string): (r: GetResponse)
    ensures name in volumes ==> r == GetResponse(VolumeInfo(name, volumes[name].volume.mountpoint, 0), "")
    ensures name !in volumes ==> r == GetResponse(VolumeInfo("", "", 0), "Volume not found")
  {
    match GetVolume(volumes, name)
    case Err(e) => GetResponse(VolumeInfo("", "", 0), e)
    case Ok(vol) => GetResponse(VolumeInfo(name, vol.volume.mountpoint, 0), "")
  }

  function Activate(): (r: ActivateResponse)
  {
    ActivateResponse(["VolumeDriver"])
  }

  function Capabilities(): (r: CapabilitiesResponse)
  {
    CapabilitiesResponse("local")
  }

  /**
   * `OpenPerms`: mount the given address at the volume's path, open its
   * permissions, unmount it again. It takes no registry state, so it can change
   * neither the map nor the state file; it returns the mounter calls made.
   */
  function OpenPerms(root: string, name: string, opts: Opts, mountEnv: MountEnv, chmodErr: Option<string>,
                     unmountEnv: UnmountEnv): (r: (seq<MounterCall>, ErrorResponse))
    ensures name == "" ==> r == ([], ErrorResponse(MissingName))
    ensures name != "" && IpOption(opts).None? ==> r == ([], ErrorResponse(MissingIp))
    ensures r.1.err == "" <==>
              && name != "" && IpOption(opts).Some? && mountEnv.mkdirErr.None? && mountEnv.mounterErr.None?
              && chmodErr.None? && UnmountVolume(name, MountPath(root, name), unmountEnv).1.None?
    // on success the volume was mounted from `ip:/` and unmounted again
    ensures r.1.err == "" ==>
              r.0 == [PhysicalMount(IpOption(opts).value + ":/", MountPath(root, name), "nfs4", 0, "rw"),
                      PhysicalUnmount(MountPath(root, name), 0)]
    // a failed chmod leaves the export mounted
    ensures name != "" && IpOption(opts).Some? && mountEnv.mkdirErr.None? && mountEnv.mounterErr.None? &&
            chmodErr.Some? ==>
              && r.0 == [PhysicalMount(IpOption(opts).value + ":/", MountPath(root, name), "nfs4", 0, "rw")]
              && r.1.err == "Error chmoding volume: " + chmodErr.value
  {
    if name == "" then ([], ErrorResponse(MissingName))
    else if IpOption(opts).None? then ([], ErrorResponse(MissingIp))
    else
      var path := MountPath(root, name);
      var (mounted, mountErr) := MountVolume(IpOption(opts).value, path, mountEnv);
      if mountErr.Some? then (mounted, ErrorResponse("Error mounting volume: " + mountErr.value))
      else if chmodErr.Some? then (mounted, ErrorResponse("Error chmoding volume: " + chmodErr.value))
      else
        var (unmounted, unmountErr) := UnmountVolume(name, path, unmountEnv);
        (mounted + unmounted, ErrorResponse(if unmountErr.Some? then unmountErr.value else ""))
  }
}
