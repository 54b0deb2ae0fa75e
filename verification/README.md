# EFS volume driver: registry and mount reference counting

This project models the volume registry of the EFS volume driver (`EfsDriver` in
`efs_driver.go`). The driver keeps a map from volume name to a record holding the
remote address (`Ip`), the name, the mount point and a mount count. It answers the
lifecycle calls Create, Mount, Path, Unmount, Remove, Get and List. It decides when
a physical mount (the 0 → 1 transition) or a physical unmount (1 → 0, or forced by
Remove) must happen. After each change to the map it writes the whole map to a
state file.

The model has four modules:

- `Types` (`types.dfy`) holds the records, the request options, the responses, and
  the calls made on the `Mounter` interface. It also holds the outcomes of the
  operating-system calls the driver depends on: `MkdirAll`, `Mounter.Mount`,
  `os.Stat`, `Mounter.Unmount`, `RemoveAll` and the state-file write.
- `Registry` (`registry.dfy`) gives each lifecycle call as a pure function. The
  function goes from a `State` to the next `State` and the response. A `State`
  holds the map, the last written state-file snapshot and the log of mounter calls.
  Each function's contract lists the call's error strings, its "no change on
  failure" rules, when it calls the mounter and with which arguments, and what it
  writes to the state file. The helpers `getVolume`, `mountPath`, `mount`,
  `unmount`, `exists` and `persist` are modelled here too. So are the read-only
  `Path` and `Get` and the maintenance call `OpenPerms`.
- `Lifecycle` (`lifecycle.dfy`) runs arbitrary sequences of mutating calls. It
  proves that the registry invariant holds after any sequence. The invariant says
  keys are non-empty and equal the record's name, counts are never negative, a
  count is positive exactly when the mount point is set, and a set mount point is
  the volume's own path. It also proves that k mounts make one physical mount and k
  unmounts one physical unmount, and that the state file stays in step with memory
  while writes succeed.
- `Driver` (`efs_driver.dfy`) holds the class `EfsDriver`. Its `volumes` map is
  updated in place. Its `persisted` snapshot and its mounter-call log are ghost.
  Each mutating method is proved to produce exactly the state and response of the
  matching `Registry` function, so the `Lifecycle` lemmas hold for any sequence of
  calls on one driver object. `List` builds its result with a loop.

External effects become parameters. Each system call is given as its outcome: an
`Option<string>` error text, or a `StatResult` for `os.Stat`. The mounter is seen
only through the calls it receives.

Notes on the code's behaviour:

- `NewEfsDriver` (`efs_driver.go:43-52`) starts with an empty map and never reads
  the state file. Nothing restores persisted volumes at startup, so the
  constructor leaves the file as it is and starts empty.
- The driver mounts with file-system type `nfs4` and data `"rw"`
  (`efs_driver.go:377`). The longer option string and the availability-zone source
  map belong to a separate mounter, which is not part of this model.
- `Get` does not reject an empty name. An empty name is simply not found, and the
  error is `"Volume not found"`.
- When `RemoveAll` fails after a successful `Mounter.Unmount`, the record keeps its
  mount point and count although the export was unmounted. The contracts of
  `Registry.Unmount` and `Registry.UnmountVolume` state this: the unmount call is
  in the log and the record is unchanged.
- The state file is written with `ioutil.WriteFile` (`efs_driver.go:397`), which
  truncates the file before writing. After a failed write the file may be empty
  or partly written, so the model then knows nothing of its content
  (`StateFile.Indeterminate`), while the in-memory map keeps the change.
- `mountPath` joins the root and the volume name with `filepath.Join`
  (`efs_driver.go:362`), which cleans the result. The names `a`, `a/` and `b/../a`
  all become `<root>/a`, so two registry entries can mount on the same target. The
  name `..` becomes the parent of the root, and `unmount`'s `RemoveAll`
  (`efs_driver.go:430`) then removes a directory outside the root. No name is
  checked before it is used as a path.

## Model

| member | source | states |
|---|---|---|
| `Registry.MountPathDistinct` | efs_driver.go:352-363 | for the model's plain join `root + "/" + name`, a mount path is non-empty and two different names never share one (the source's cleaning join does not keep this; see the notes above) |
| `Registry.GetVolume` | efs_driver.go:280-290 | the lookup succeeds exactly for a known name and returns its record; otherwise the error is "Volume not found" |
| `Registry.Exists` | efs_driver.go:341-350 | a successful `Stat` gives (true, no error), absence gives (false, no error), and any other `Stat` failure gives (true, that error) |
| `Registry.MountVolume` | efs_driver.go:365-382 | when the directory is created, exactly one mounter call is made, with source `ip:/`, the target path, `nfs4`, flags 0 and data `rw`; the result is success exactly when neither step fails, and otherwise it carries the first failure |
| `Registry.UnmountVolume` | efs_driver.go:407-439 | the mounter's unmount is called, once, exactly when the path is present; success exactly when unmount and directory removal both succeed; each failure gives its own message (stat error, "Volume <n> does not exist (path: <p>), nothing to do!", "Error unmounting volume: …", "Error creating mountpoint: …") |
| `Registry.Commit` | efs_driver.go:384-405 | after an in-memory change the state file holds the new map if the write succeeds; if the write fails nothing is known of the file, while memory keeps the change; no mounter call |
| `Registry.Create` | efs_driver.go:60-101 | empty name gives "Missing mandatory 'volume_name'", a missing or non-string ip gives "Missing mandatory 'ip' field in 'Opts'", both with no change; a known name succeeds and leaves everything untouched (the new ip is dropped); a new name inserts `{ip, name, "", 0}`, writes the file, and reports a failed write as "persist state failed when creating: …" |
| `Registry.Mount` | efs_driver.go:115-157 | empty name and unknown name ("Volume '<n>' must be created before being mounted") change nothing and call no mounter; the mounter is called only when the count is below 1; a failed physical mount gives "Error mounting volume: …" with map and file unchanged; otherwise only that volume changes, its count rises by one, its mount point becomes its path and is returned, and the file is written |
| `Registry.Path` | efs_driver.go:159-180 | empty name, unknown name ("Volume '<n>' not found") and unmounted volume ("Volume not previously mounted") are errors; otherwise it returns the stored mount point |
| `Registry.Unmount` | efs_driver.go:182-229 | empty name, unknown name and "Volume not previously mounted" change nothing; the mounter's unmount is called only when the count is 1; if that physical unmount fails, map and file are unchanged and its error is returned; otherwise only that volume changes, its count drops by one, and its mount point is cleared exactly on 1 → 0; the file is written |
| `Registry.Remove` | efs_driver.go:231-264 | empty name and unknown name change nothing; a volume with a mount point gets exactly one physical unmount whatever its count; if that fails the volume stays and nothing is written; otherwise exactly that key is deleted and the file is written |
| `Registry.Get` | efs_driver.go:266-290 | a known volume yields its name and mount point (count not reported); an unknown one yields the zero volume and "Volume not found" |
| `Registry.OpenPerms` | efs_driver.go:299-339 | checks name and ip like Create; on success the export was mounted from `ip:/` and then unmounted; a failed chmod leaves it mounted; it takes no registry state, so it cannot change the map or the file |
| `Lifecycle.StepPreservesValid` | efs_driver.go:196-222 | every mutating call keeps the registry invariant: non-empty keys equal to the record's name, count never negative, count > 0 exactly when the mount point is set, and a set mount point is the volume's path |
| `Lifecycle.RunPreservesValid` | efs_driver.go:60-264 | the registry invariant holds after any sequence of Create, Mount, Unmount and Remove calls, whatever the system calls return |
| `Lifecycle.NamelessCallsChangeNothing` | efs_driver.go:68-70 | any sequence of calls with an empty volume name leaves map, state file and mounter log unchanged (the same check sits at lines 118, 185 and 236) |
| `Lifecycle.RunKeepsStateFileInSync` | efs_driver.go:90-96 | starting from a file that holds the map, while every state-file write succeeds, the file holds the in-memory map after every call, failed calls included |
| `Lifecycle.CreateTwiceKeepsFirst` | efs_driver.go:77-100 | two Creates of a new name leave the record of the first, with the first ip |
| `Lifecycle.PathBeforeMount` | efs_driver.go:173-177 | right after a successful Create of a new volume, Path answers "Volume not previously mounted" |
| `Lifecycle.PathFollowsMount` | efs_driver.go:140-179 | after a successful Mount, Path returns the mount point that Mount returned, and Get reports the volume's path |
| `Lifecycle.RepeatMounts` | efs_driver.go:130-146 | mounts of an already mounted volume only add to its count and call no mounter |
| `Lifecycle.KMountsOnePhysicalMount` | efs_driver.go:130-146 | k ≥ 1 mounts of an unmounted volume, whose first physical mount succeeds, leave the count at k and the mount point at its path, with exactly one mounter call |
| `Lifecycle.ReleaseReferences` | efs_driver.go:204-222 | unmounts that leave at least one reference only lower the count and call no mounter |
| `Lifecycle.KUnmountsOnePhysicalUnmount` | efs_driver.go:202-222 | k unmounts of a volume mounted k times, whose last physical unmount succeeds, leave count 0 and an empty mount point, with exactly one unmount call on its mount point |
| `Lifecycle.MountUnmountRoundTrip` | efs_driver.go:115-229 | k mounts then k unmounts of an unmounted volume restore the map exactly, with one physical mount followed by one physical unmount of its path |
| `Driver.EfsDriver.constructor` | efs_driver.go:43-52 | a new driver has an empty map and the given root; the state file keeps whatever it held |
| `Driver.EfsDriver.Persist` | efs_driver.go:384-405 | the whole map is written when the write succeeds; after a failed write nothing is known of the file |
| `Driver.EfsDriver.Create` | efs_driver.go:60-101 | the in-place Create gives exactly the state and response of `Registry.Create` and keeps the invariant |
| `Driver.EfsDriver.List` | efs_driver.go:103-113 | returns every record's public part once, one entry per volume, with distinct names and an empty error |
| `Driver.EfsDriver.Mount` | efs_driver.go:115-157 | the in-place Mount gives exactly the state and response of `Registry.Mount` and keeps the invariant |
| `Driver.EfsDriver.Unmount` | efs_driver.go:182-229 | the in-place Unmount gives exactly the state and response of `Registry.Unmount` and keeps the invariant |
| `Driver.EfsDriver.Remove` | efs_driver.go:231-264 | the in-place Remove gives exactly the state and response of `Registry.Remove` and keeps the invariant |

## Left out

- Locking and concurrency: `volumesLock` is not modelled. Calls run one after another, so the value copy read by `getVolume` and the record looked up again under the lock (lines 143 and 215) are the same record. The race between two concurrent first mounts is not captured.
- `syscall.Umask` save and restore (lines 131-132 and 303-304), and all logging: neither affects the map, the file or the mounter calls.
- `Registry.MountPathDistinct`: the mount path is `root + "/" + name`. `filepath.Abs` of the root, `filepath.Join`'s path cleaning, and the `MkdirAll` of the root are not modelled. The distinctness it proves therefore does not hold of the source, where `a`, `a/` and `b/../a` share a path and `..` leaves the root. A failure of `Abs` or `MkdirAll` ends the process through `logger.Fatal`, which is not modelled either.
- JSON encoding and `WriteFile` in `persist`: a write is an outcome, success or an error text. After a success the file holds the map that was written. After a failure its content is not tracked at all (`Indeterminate`), so the old content is not promised either.
- The output bytes returned by `Mounter.Mount` are only logged, so they are not modelled. The `uintptr` and `int` flags are modelled as `int`.
- `Activate` and `Capabilities` return constants (`VolumeDriver` and scope `local`). They are modelled as functions without a contract.
- `Lifecycle.Run`: read-only calls (`Path`, `Get`, `List`) are not part of a call sequence, because they change no state.
- `cmd/efsdriver/main.go`: flag parsing, TLS, servers and driver-spec files. It is not part of this model.
- `efsdriverfakes/fake_mounter.go`: it is replaced by the ghost log of mounter calls.
- `efsmounter/efs_mounter_test.go`: the EFS mounter, with its availability-zone source map and option string, is not part of this model.
