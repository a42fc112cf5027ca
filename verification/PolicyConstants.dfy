/** The check lines, calls, markers and helpers of the policy text passes, line by line
    (signing-service/src/genpolicy.rs). Long literals are written as concatenations of short
    pieces, in places within a word: the verifier looks for a character in a short piece at once,
    and not in a long one. A cut has no other meaning. */
module PolicyConstants {
  import opened PolicyLines

  datatype Pass = Pass(marker: string, rules: seq<Rule>, helper: seq<string>)

  // Line forms of the policy language.

  function Equals(a: string, b: string): string {
    "    " + a + " == " + b
  }

  function In(a: string, b: string): string {
    "    " + a + " in " + b
  }

  function Call(name: string, args: string): string {
    "    " + name + "(" + args + ")"
  }

  function Head(name: string, params: string): string {
    name + "(" + params + ") if {"
  }

  /** One rule clause: a blank line, the head, the body and the closing brace. */
  function Clause(head: string, body: seq<string>): seq<string> {
    ["", head] + body + ["}"]
  }

  // --- sandbox PID namespace

  const PIDNS: string := "allow_cap_sandbox_pidns"

  const PIDNS_RULE: Rule :=
    Rule(Equals("p_pidns", "i_pidns"), [Call(PIDNS, "p_container, p_pidns, i_pidns")])

  const PIDNS_HELPER: seq<string> :=
    Clause(Head(PIDNS, "_p_container, p_pidns, i_pidns"), [Equals("p_pidns", "i_pidns")])
    + Clause(Head(PIDNS, "p_container, _p_pidns, i_pidns"),
             [Equals("p_container.OCI" + ".Annotations" + "[\"io." + "kubernetes.cri" + ".container-type\"]",
                     "\"sandbox\""),
              Equals("i_pidns", "false")])

  // --- root filesystem propagation

  const ROOTFS: string := "allow_cap_rootfs" + "_propagation"

  const ROOTFS_RULE: Rule :=
    Rule(Equals("count(i_linux" + ".RootfsPropagation)", "0"),
         [Call(ROOTFS, "i_linux" + ".RootfsPropagation")])

  const ROOTFS_HELPER: seq<string> :=
    Clause(Head(ROOTFS, "rootfs_propagation"), [Equals("count(" + "rootfs_propagation" + ")", "0")])
    + Clause(Head(ROOTFS, "rootfs_propagation"), [Equals("rootfs_propagation", "\"rshared\"")])
    + Clause(Head(ROOTFS, "rootfs_propagation"), [Equals("rootfs_propagation", "\"rslave\"")])

  // --- storage and mount options

  const MOUNT: string := "allow_cap_mount_options"
  const FS_GROUP: string := "allow_cap_" + "storage_fs_group"
  const OPTIONS: string := "allow_cap_" + "storage_options"

  const MOUNT_RULE: Rule :=
    Rule(Equals("p_mount.options", "i_mount.options"), [Call(MOUNT, "p_mount, i_mount")])
  const FS_GROUP_RULE: Rule :=
    Rule(Equals("p_storage.fs_group" + "      ", "i_storage.fs_group"),
         [Call(FS_GROUP, "p_storage, i_storage")])
  const OPTIONS_RULE: Rule :=
    Rule(Equals("p_storage.options", "i_storage.options"), [Call(OPTIONS, "p_storage, i_storage")])

  /** A mount clause: which options of the policy admit which options of the input. */
  function MountClause(policy: string, input: string): seq<string> {
    Clause(Head(MOUNT, "p_mount, i_mount"),
           [Equals("p_mount.type_", "\"bind\""), Equals("p_mount.source", "\"\""),
            Equals("p_mount.options", policy), Equals("i_mount.options", input)])
  }

  const FSGID_BODY: seq<string> :=
    [Equals("p_storage.fs_group", "null"), Equals("p_storage.options", "[\"fsgid=10001\"]"),
     Equals("i_storage.options", "[]"),
     Equals("i_storage.fs_group" + ".group_change_policy", "0"),
     Equals("i_storage.fs_group" + ".group_id", "10001")]

  const STORAGE_HELPER: seq<string> :=
    Clause(Head(MOUNT, "p_mount, i_mount"), [Equals("p_mount.options", "i_mount.options")])
    + MountClause("[\"rbind\", \"rprivate\"" + ", \"rw\"]", "[\"rbind\", \"rslave\"" + ", \"rw\"]")
    + MountClause("[\"rbind\", \"rprivate\"" + ", \"ro\"]", "[\"rbind\", \"rslave\"" + ", \"ro\"]")
    + MountClause("[\"rbind\", \"rprivate\"" + ", \"rw\"]", "[\"rbind\", \"rshared\"" + ", \"rw\"]")
    + Clause(Head(FS_GROUP, "p_storage, i_storage"), [Equals("p_storage.fs_group", "i_storage.fs_group")])
    + Clause(Head(FS_GROUP, "p_storage, i_storage"), FSGID_BODY)
    + Clause(Head(OPTIONS, "p_storage, i_storage"), [Equals("p_storage.options", "i_storage.options")])
    + Clause(Head(OPTIONS, "p_storage, i_storage"), FSGID_BODY)

  // --- sandbox storages

  const SANDBOX_BEFORE_X: string := "allow_cap_sandbo"
  const SANDBOX: string := SANDBOX_BEFORE_X + ['x'] + "_storage"

  const SANDBOX_RULE: Rule :=
    Rule(Equals("i_storage", "p_storage"), [Call(SANDBOX, "p_storage, i_storage")])

  const SANDBOX_BODY: seq<string> :=
    [Equals("i_storage.driver", "\"9p\""),
     Equals("i_storage.driver" + "_options", "[]"),
     Equals("i_storage.fs_group", "null"),
     Equals("i_storage.fstype", "\"9p\""),
     Equals("i_storage.mount_point", "\"/run/kata-containers" + "/shared/containers/\""),
     Equals("count(i_storage.options)", "3"),
     In("\"trans=virtio" + ",version=9p2000.L" + ",cache=mmap\"", "i_storage.options"),
     In("\"nodev\"", "i_storage.options"),
     In("\"msize=8192\"", "i_storage.options"),
     Equals("i_storage.shared", "false"),
     Equals("i_storage.source", "\"kataShared\"")]

  const SANDBOX_HELPER: seq<string> :=
    Clause(Head(SANDBOX, "p_storage, i_storage"), [Equals("i_storage", "p_storage")])
    + Clause(Head(SANDBOX, "_p_storage, i_storage"), SANDBOX_BODY)

  // --- extra storages

  const EXTRA_BEFORE_X: string := "allow_cap_e"
  const EXTRA: string := EXTRA_BEFORE_X + ['x'] + "tra_storage"

  const EXTRA_RULE: Rule :=
    Rule(Equals("p_count", "i_count" + " - img_pull_count"),
         ["    " + "cap_extra_storage_count" + " := count([s | s" + " := i_storages[_]; "
            + EXTRA + "(s, bundle_id" + ", sandbox_id)])",
          "    print(\"" + "allow_storages: " + "cap_extra_storage_count" + " =\", "
            + "cap_extra_storage_count" + ")",
          Equals("p_count", "i_count" + " - img_pull_count" + " - cap_extra_storage_count")])

  const EXTRA_BODY: seq<string> :=
    [Equals("i_storage.driver", "\"watchable-bind\""),
     Equals("i_storage.driver" + "_options", "[]"),
     Equals("i_storage.fs_group", "null"),
     Equals("i_storage.fstype", "\"bind\""),
     Equals("i_storage.options", "[\"rbind\", \"rprivate\"" + ", \"ro\"]"),
     Equals("i_storage.shared", "false"),
     "",
     "    watchable_prefix" + " := concat(\"\", [" + "\"/run/kata-containers"
       + "/shared/containers" + "/watchable/\"" + ", bundle_id, \"-\"])",
     "    source_prefix" + " := concat(\"\", [" + "\"/run/kata-containers"
       + "/shared/containers/\"" + ", bundle_id, \"-\"])",
     "    startswith(" + "i_storage.mount_point" + ", watchable_prefix)",
     "    startswith(" + "i_storage.source" + ", source_prefix)",
     Equals("replace(" + "i_storage.mount_point" + ", \"/watchable/\"" + ", \"/\")", "i_storage.source")]

  const EXTRA_HELPER: seq<string> :=
    Clause(Head("allow_storage", "_p_storages, i_storage" + ", bundle_id, sandbox_id"),
           [Call(EXTRA, "i_storage, bundle_id" + ", sandbox_id")])
    + Clause(Head(EXTRA, "i_storage, bundle_id" + ", _sandbox_id"), EXTRA_BODY)

  // --- the passes, in order

  const SANDBOX_PIDNS: Pass := Pass(PIDNS, [PIDNS_RULE], PIDNS_HELPER)
  const ROOTFS_PROPAGATION: Pass := Pass(ROOTFS, [ROOTFS_RULE], ROOTFS_HELPER)
  const STORAGE_MOUNTS: Pass := Pass(MOUNT, [MOUNT_RULE, FS_GROUP_RULE, OPTIONS_RULE], STORAGE_HELPER)
  const SANDBOX_STORAGES: Pass := Pass(SANDBOX, [SANDBOX_RULE], SANDBOX_HELPER)
  const EXTRA_STORAGES: Pass := Pass(EXTRA, [EXTRA_RULE], EXTRA_HELPER)
}
