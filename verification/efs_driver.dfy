/**
 * The EFS driver object: its map of volumes is updated in place by Create,
 * Mount, Unmount and Remove, each of which then writes the whole map to the
 * state file. Each mutating method is proved to do exactly what the matching
 * function of `Registry` says, so the lemmas of `Lifecycle` apply to any
 * sequence of calls on one driver. The file content and the mounter calls are
 * ghost: the driver never reads them back.
 */
module Driver {
  import opened Types
  import Registry
  import Lifecycle

  class EfsDriver {
    var volumes: Volumes
    const mountPathRoot: string
    /** What the state file holds. */
    ghost var persisted: StateFile
    /** Every call made on the mounter, in order. */
    ghost var calls: seq<MounterCall>

    ghost predicate Valid()
      reads this
    {
      Registry.Valid(mountPathRoot, volumes)
    }

    ghost function State(): Registry.State
      reads this
    {
      Registry.State(volumes, persisted, calls)
    }

    /** `NewEfsDriver`: an empty map; an existing state file is left as it is and not read. */
    constructor (mountPathRoot: string, ghost stateFile: StateFile)
      ensures Valid() && this.mountPathRoot == mountPathRoot
      ensures volumes == map[] && persisted == stateFile && calls == []
    {
      this.mountPathRoot := mountPathRoot;
      volumes := map[];
      persisted := stateFile;
      calls := [];
    }

    /**
     * `persist`: write the whole map. The write either succeeds or fails with
     * `persistErr`; a failed write may have truncated the file.
     */
    method Persist(persistErr: Option<string>) returns (err: Option<string>)
      modifies this`persisted
      ensures err == persistErr
      ensures persisted == if persistErr.None? then Written(volumes) else Indeterminate
    {
      persisted := if persistErr.None? then Written(volumes) else Indeterminate;
      err := persistErr;
    }

    method Create(name: string, opts: Opts, persistErr: Option<string>) returns (resp: ErrorResponse)
      requires Valid()
      modifies this
      ensures Valid()
      ensures (State(), resp) == Registry.Create(old(State()), name, opts, persistErr)
    {
      Lifecycle.StepPreservesValid(mountPathRoot, State(), Lifecycle.CreateReq(name, opts, persistErr));
      if name == "" {
        return ErrorResponse(MissingName);
      }
      var ip := Registry.IpOption(opts);
      if ip.None? {
        return ErrorResponse(MissingIp);
      }
      var found := Registry.GetVolume(volumes, name);
      if found.Err? {
        volumes := volumes[name := EfsVolumeInfo(ip.value, VolumeInfo(name, "", 0))];
        var err := Persist(persistErr);
        if err.Some? {
          return ErrorResponse("persist state failed when creating: " + err.value);
        }
      }
      resp := ErrorResponse("");
    }

    /** `List`: the public part of every record, one per volume. */
    method List() returns (resp: ListResponse)
      requires Valid()
      ensures resp.err == ""
      ensures |resp.volumes| == |volumes|
      ensures forall i :: 0 <= i < |resp.volumes| ==>
                resp.volumes[i].name in volumes && resp.volumes[i] == volumes[resp.volumes[i].name].volume
      ensures forall i, j :: 0 <= i < j < |resp.volumes| ==> resp.volumes[i].name != resp.volumes[j].name
      ensures forall n :: n in volumes ==> exists i :: 0 <= i < |resp.volumes| && resp.volumes[i].name == n
    {
      var listed: seq<VolumeInfo> := [];
      var remaining := volumes.Keys;
      while remaining != {}
        invariant remaining <= volumes.Keys
        invariant |listed| + |remaining| == |volumes|
        invariant forall i :: 0 <= i < |listed| ==>
                    listed[i].name in volumes.Keys - remaining && listed[i] == volumes[listed[i].name].volume
        invariant forall i, j :: 0 <= i < j < |listed| ==> listed[i].name != listed[j].name
        invariant forall n :: n in volumes.Keys - remaining ==> exists i :: 0 <= i < |listed| && listed[i].name == n
        decreases remaining
      {
        var n :| n in remaining;
        var before := listed;
        listed := listed + [volumes[n].volume];
        forall m | m in volumes.Keys - (remaining - {n})
          ensures exists i :: 0 <= i < |listed| && listed[i].name == m
        {
          if m == n {
            assert listed[|before|].name == m;
          } else {
            assert m in volumes.Keys - remaining;
            var i :| 0 <= i < |before| && before[i].name == m;
            assert listed[i].name == m;
          }
        }
        remaining := remaining - {n};
      }
      assert volumes.Keys - remaining == volumes.Keys;
      resp := ListResponse(listed, "");
    }

    method Mount(name: string, env: MountEnv, persistErr: Option<string>) returns (resp: MountResponse)
      requires Valid()
      modifies this
      ensures Valid()
      ensures (State(), resp) == Registry.Mount(mountPathRoot, old(State()), name, env, persistErr)
    {
      Lifecycle.StepPreservesValid(mountPathRoot, State(), Lifecycle.MountReq(name, env, persistErr));
      if name == "" {
        return MountResponse("", MissingName);
      }
      var found := Registry.GetVolume(volumes, name);
      if found.Err? {
        return MountResponse("", "Volume '" + name + "' must be created before being mounted");
      }
      var vol := found.value;
      var path := Registry.MountPath(mountPathRoot, vol.volume.name);
      if vol.volume.mountCount < 1 {
        var (issued, err) := Registry.MountVolume(vol.ip, path, env);
        calls := calls + issued;
        if err.Some? {
          return MountResponse("", "Error mounting volume: " + err.value);
        }
      }
      var volume := volumes[name];
      volumes := volumes[name := volume.(volume := volume.volume.(
        mountpoint := path, mountCount := volume.volume.mountCount + 1))];
      var err := Persist(persistErr);
      if err.Some? {
        return MountResponse("", "persist state failed when mounting: " + err.value);
      }
      resp := MountResponse(path, "");
    }

    method Unmount(name: string, env: UnmountEnv, persistErr: Option<string>) returns (resp: ErrorResponse)
      requires Valid()
      modifies this
      ensures Valid()
      ensures (State(), resp) == Registry.Unmount(old(State()), name, env, persistErr)
    {
      Lifecycle.StepPreservesValid(mountPathRoot, State(), Lifecycle.UnmountReq(name, env, persistErr));
      if name == "" {
        return ErrorResponse(MissingName);
      }
      var found := Registry.GetVolume(volumes, name);
      if found.Err? {
        return ErrorResponse("Volume '" + name + "' not found");
      }
      var vol := found.value;
      if vol.volume.mountpoint == "" {
        return ErrorResponse(NotMounted);
      }
      var unmounted := false;
      if vol.volume.mountCount == 1 {
        var (issued, err) := Registry.UnmountVolume(name, vol.volume.mountpoint, env);
        calls := calls + issued;
        if err.Some? {
          return ErrorResponse(err.value);
        }
        unmounted := true;
      }
      var volume := volumes[name];
      if unmounted {
        volume := volume.(volume := volume.volume.(mountpoint := ""));
      }
      volume := volume.(volume := volume.volume.(mountCount := volume.volume.mountCount - 1));
      volumes := volumes[name := volume];
      var err := Persist(persistErr);
      if err.Some? {
        return ErrorResponse("failed to persist state when unmounting: " + err.value);
      }
      resp := ErrorResponse("");
    }

    method Remove(name: string, env: UnmountEnv, persistErr: Option<string>) returns (resp: ErrorResponse)
      requires Valid()
      modifies this
      ensures Valid()
      ensures (State(), resp) == Registry.Remove(old(State()), name, env, persistErr)
    {
      Lifecycle.StepPreservesValid(mountPathRoot, State(), Lifecycle.RemoveReq(name, env, persistErr));
      if name == "" {
        return ErrorResponse(MissingName);
      }
      var found := Registry.GetVolume(volumes, name);
      if found.Err? {
        return ErrorResponse("Volume '" + name + "' not found");
      }
      var vol := found.value;
      if vol.volume.mountpoint != "" {
        var (issued, err) := Registry.UnmountVolume(name, vol.volume.mountpoint, env);
        calls := calls + issued;
        if err.Some? {
          return ErrorResponse(err.value);
        }
      }
      volumes := volumes - {name};
      var err := Persist(persistErr);
      if err.Some? {
        return ErrorResponse("failed to persist state when removing: " + err.value);
      }
      resp := ErrorResponse("");
    }
  }
}
