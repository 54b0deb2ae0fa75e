/**
 * Sequences of lifecycle calls against one registry, and what they guarantee
 * together: the registry invariant is kept by every call, the state file stays
 * in step with memory while writes succeed, and mount reference counting makes
 * k mounts cost one physical mount and k unmounts one physical unmount.
 */
module Lifecycle {
  import opened Types
  import opened Registry

  /** A mutating lifecycle call, with the outcomes of the system calls it makes. */
  datatype Request =
    | CreateReq(name: string, opts: Opts, persistErr: Option<string>)
    | MountReq(name: string, mountEnv: MountEnv, persistErr: Option<string>)
    | UnmountReq(name: string, unmountEnv: UnmountEnv, persistErr: Option<string>)
    | RemoveReq(name: string, unmountEnv: UnmountEnv, persistErr: Option<string>)

  function Step(root: string, s: State, req: Request): (s': State)
  {
    match req
    case CreateReq(name, opts, p) => Create(s, name, opts, p).0
    case MountReq(name, env, p) => Mount(root, s, name, env, p).0
    case UnmountReq(name, env, p) => Unmount(s, name, env, p).0
    case RemoveReq(name, env, p) => Remove(s, name, env, p).0
  }

  /** The state after the calls `reqs`, made one after another from `s`. */
  function Run(root: string, s: State, reqs: seq<Request>): (s': State)
    decreases |reqs|
  {
    if reqs == [] then s else Run(root, Step(root, s, reqs[0]), reqs[1..])
  }

  lemma {:induction false} RunAppend(root: string, s: State, a: seq<Request>, b: seq<Request>)
    ensures Run(root, s, a + b) == Run(root, Run(root, s, a), b)
    decreases |a|
  {
    if a != [] {
      assert (a + b)[1..] == a[1..] + b;
      RunAppend(root, Step(root, s, a[0]), a[1..], b);
    } else {
      assert a + b == b;
    }
  }

  /** Every call keeps the registry invariant; in particular no count goes negative. */
  lemma StepPreservesValid(root: string, s: State, req: Request)
    requires Valid(root, s.volumes)
    ensures Valid(root, Step(root, s, req).volumes)
  {
  }

  lemma {:induction false} RunPreservesValid(root: string, s: State, reqs: seq<Request>)
    requires Valid(root, s.volumes)
    ensures Valid(root, Run(root, s, reqs).volumes)
    decreases |reqs|
  {
    if reqs != [] {
      StepPreservesValid(root, s, reqs[0]);
      RunPreservesValid(root, Step(root, s, reqs[0]), reqs[1..]);
    }
  }

  /** Calls without a volume name are all rejected before they touch anything. */
  lemma {:induction false} NamelessCallsChangeNothing(root: string, s: State, reqs: seq<Request>)
    requires forall i :: 0 <= i < |reqs| ==> reqs[i].name == ""
    ensures Run(root, s, reqs) == s
    decreases |reqs|
  {
    if reqs != [] {
      NamelessCallsChangeNothing(root, Step(root, s, reqs[0]), reqs[1..]);
    }
  }

  /**
   * While every state-file write succeeds, the file holds exactly the in-memory
   * map after every call, whether the call succeeded or not.
   */
  lemma {:induction false} RunKeepsStateFileInSync(root: string, s: State, reqs: seq<Request>)
    requires s.persisted == Written(s.volumes)
    requires forall i :: 0 <= i < |reqs| ==> reqs[i].persistErr.None?
    ensures Run(root, s, reqs).persisted == Written(Run(root, s, reqs).volumes)
    decreases |reqs|
  {
    if reqs != [] {
      RunKeepsStateFileInSync(root, Step(root, s, reqs[0]), reqs[1..]);
    }
  }

  /** A second Create of the same name keeps the first record and drops the new ip. */
  lemma CreateTwiceKeepsFirst(root: string, s: State, name: string, first: Opts, second: Opts,
                              p1: Option<string>, p2: Option<string>)
    requires name != "" && name !in s.volumes && IpOption(first).Some?
    ensures Run(root, s, [CreateReq(name, first, p1), CreateReq(name, second, p2)]).volumes ==
            s.volumes[name := EfsVolumeInfo(IpOption(first).value, VolumeInfo(name, "", 0))]
  {
    var calls := [CreateReq(name, first, p1), CreateReq(name, second, p2)];
    var s1 := Step(root, s, calls[0]);
    assert calls[1..] == [calls[1]];
    assert Run(root, s1, calls[1..]) == Step(root, s1, calls[1]);
  }

  /** A newly created volume is not mounted: Path refuses it. */
  lemma PathBeforeMount(s: State, name: string, opts: Opts, persistErr: Option<string>)
    requires name != "" && name !in s.volumes && IpOption(opts).Some?
    ensures Path(Create(s, name, opts, persistErr).0.volumes, name) == PathResponse("", NotMounted)
  {
  }

  /** After a successful Mount, Path returns the mount point Mount returned, and Get reports it. */
  lemma PathFollowsMount(root: string, s: State, name: string, env: MountEnv)
    requires Valid(root, s.volumes)
    ensures Mount(root, s, name, env, None).1.err == "" ==>
              && Path(Mount(root, s, name, env, None).0.volumes, name) ==
                 PathResponse(Mount(root, s, name, env, None).1.mountpoint, "")
              && Get(Mount(root, s, name, env, None).0.volumes, name).volume.mountpoint == MountPath(root, name)
  {
  }

  predicate AllMounts(reqs: seq<Request>, name: string)
  {
    forall i :: 0 <= i < |reqs| ==> reqs[i].MountReq? && reqs[i].name == name
  }

  predicate AllUnmounts(reqs: seq<Request>, name: string)
  {
    forall i :: 0 <= i < |reqs| ==> reqs[i].UnmountReq? && reqs[i].name == name
  }

  /** Mounts of an already mounted volume only count: no mounter call, same mount point. */
  lemma {:induction false} RepeatMounts(root: string, s: State, name: string, reqs: seq<Request>)
    requires Found(s, name) && AllMounts(reqs, name)
    requires s.volumes[name].volume.mountCount >= 1
    requires s.volumes[name].volume.mountpoint == MountPath(root, s.volumes[name].volume.name)
    ensures Run(root, s, reqs).calls == s.calls
    ensures Run(root, s, reqs).volumes == s.volumes[name := s.volumes[name].(volume :=
              s.volumes[name].volume.(mountCount := s.volumes[name].volume.mountCount + |reqs|))]
    decreases |reqs|
  {
    if reqs != [] {
      var s1 := Step(root, s, reqs[0]);
      assert s1.volumes == s.volumes[name := s.volumes[name].(volume :=
               s.volumes[name].volume.(mountCount := s.volumes[name].volume.mountCount + 1))];
      RepeatMounts(root, s1, name, reqs[1..]);
    }
  }

  /**
   * k mounts of an unmounted volume whose first physical mount succeeds leave the
   * count at k and call the mounter exactly once, with source `ip:/`.
   */
  lemma {:induction false} KMountsOnePhysicalMount(root: string, s: State, name: string, reqs: seq<Request>)
    requires Found(s, name) && AllMounts(reqs, name) && |reqs| >= 1
    requires s.volumes[name].volume.mountCount == 0
    requires reqs[0].mountEnv == MountEnv(None, None)
    ensures Run(root, s, reqs).calls == s.calls +
              [PhysicalMount(s.volumes[name].ip + ":/", MountPath(root, s.volumes[name].volume.name), "nfs4", 0, "rw")]
    ensures Run(root, s, reqs).volumes == s.volumes[name := s.volumes[name].(volume := s.volumes[name].volume.(
              mountpoint := MountPath(root, s.volumes[name].volume.name), mountCount := |reqs|))]
  {
    var vol := s.volumes[name];
    var s1 := Step(root, s, reqs[0]);
    assert s1.volumes == s.volumes[name := vol.(volume := vol.volume.(
             mountpoint := MountPath(root, vol.volume.name), mountCount := 1))];
    RepeatMounts(root, s1, name, reqs[1..]);
  }

  /** Unmounts that leave at least one reference only count down. */
  lemma {:induction false} ReleaseReferences(root: string, s: State, name: string, reqs: seq<Request>)
    requires Found(s, name) && AllUnmounts(reqs, name)
    requires s.volumes[name].volume.mountpoint != ""
    requires s.volumes[name].volume.mountCount > |reqs|
    ensures Run(root, s, reqs).calls == s.calls
    ensures Run(root, s, reqs).volumes == s.volumes[name := s.volumes[name].(volume :=
              s.volumes[name].volume.(mountCount := s.volumes[name].volume.mountCount - |reqs|))]
    decreases |reqs|
  {
    if reqs != [] {
      var s1 := Step(root, s, reqs[0]);
      assert s1.volumes == s.volumes[name := s.volumes[name].(volume :=
               s.volumes[name].volume.(mountCount := s.volumes[name].volume.mountCount - 1))];
      ReleaseReferences(root, s1, name, reqs[1..]);
    }
  }

  /**
   * k unmounts of a volume mounted k times whose last physical unmount succeeds
   * clear its mount point and call the mounter's unmount exactly once.
   */
  lemma KUnmountsOnePhysicalUnmount(root: string, s: State, name: string, reqs: seq<Request>)
    requires Found(s, name) && AllUnmounts(reqs, name) && |reqs| >= 1
    requires s.volumes[name].volume.mountpoint != ""
    requires s.volumes[name].volume.mountCount == |reqs|
    requires reqs[|reqs| - 1].unmountEnv == UnmountEnv(Present, None, None)
    ensures Run(root, s, reqs).calls == s.calls + [PhysicalUnmount(s.volumes[name].volume.mountpoint, 0)]
    ensures Run(root, s, reqs).volumes ==
              s.volumes[name := s.volumes[name].(volume := s.volumes[name].volume.(mountpoint := "", mountCount := 0))]
  {
    var vol := s.volumes[name];
    var k := |reqs|;
    var front, last := reqs[..k - 1], reqs[k - 1..];
    assert reqs == front + last;
    ReleaseReferences(root, s, name, front);
    RunAppend(root, s, front, last);
    var s1 := Run(root, s, front);
    assert s1.volumes[name] == vol.(volume := vol.volume.(mountCount := 1));
    var s2 := Step(root, s1, last[0]);
    assert Run(root, s1, last) == s2;
    assert s2.volumes == s1.volumes[name := vol.(volume := vol.volume.(mountpoint := "", mountCount := 0))];
  }

  /**
   * Mounting an unmounted volume k times and unmounting it k times restores its
   * record, with one physical mount followed by one physical unmount of its path.
   */
  lemma {:induction false} MountUnmountRoundTrip(root: string, s: State, name: string, mounts: seq<Request>, unmounts: seq<Request>)
    requires Found(s, name) && RecordValid(root, name, s.volumes[name])
    requires s.volumes[name].volume.mountCount == 0
    requires AllMounts(mounts, name) && AllUnmounts(unmounts, name)
    requires |mounts| == |unmounts| >= 1
    requires mounts[0].mountEnv == MountEnv(None, None)
    requires unmounts[|unmounts| - 1].unmountEnv == UnmountEnv(Present, None, None)
    ensures Run(root, s, mounts + unmounts).volumes == s.volumes
    ensures Run(root, s, mounts + unmounts).calls == s.calls +
              [PhysicalMount(s.volumes[name].ip + ":/", MountPath(root, name), "nfs4", 0, "rw"),
               PhysicalUnmount(MountPath(root, name), 0)]
  {
    var vol := s.volumes[name];
    RunAppend(root, s, mounts, unmounts);
    KMountsOnePhysicalMount(root, s, name, mounts);
    var s1 := Run(root, s, mounts);
    MountPathDistinct(root, name, name);
    KUnmountsOnePhysicalUnmount(root, s1, name, unmounts);
    var s2 := Run(root, s1, unmounts);
    assert s2.volumes == s.volumes[name := vol];
  }
}
