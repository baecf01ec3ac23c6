/**
 * The per-node Ignition (config version 3.2.0) document: which directories,
 * files and systemd units a node receives on first boot.
 *
 * The disk the generator reads is an input value. Every file written from
 * a source on disk is described by a `Planned` triple (destination, source,
 * mode); `NodePlan` is the ordered list of those triples for one node and
 * `NodeConfig` reads them in order, failing on the first source that cannot
 * be read. `IgnitionForNode` builds the same document by appending entries
 * one at a time and is proved to agree with `NodeConfig`.
 */
module Ignition {
  import opened Wrappers
  import opened Bytes
  import opened Paths
  import Base64
  import Utf8
  import Env

  /** A location on the generator's side, relative to the stage directory, used as an opaque key. */
  type SourcePath = string

  /**
   * What the generator can see: the readable files with their bytes, and
   * the directories with the names of their entries, in listing order.
   */
  datatype Disk = Disk(files: map<SourcePath, seq<byte>>, dirs: map<SourcePath, seq<string>>)

  /** `Path.exists()`: a file or a directory is there. */
  predicate Exists(disk: Disk, p: SourcePath) {
    p in disk.files || p in disk.dirs
  }

  /** The names a directory lists; nothing when it is not a directory. */
  function ListDir(disk: Disk, p: SourcePath): seq<string> {
    if p in disk.dirs then disk.dirs[p] else []
  }

  /** `read_bytes` raised: the source is missing, a directory, or unreadable. */
  datatype ReadError = SourceReadError(src: SourcePath)

  /** One entry of `storage.files`: destination, permission bits and `contents.source`. */
  datatype File = File(path: string, mode: int, source: string)

  /** One entry of `storage.directories`. */
  datatype Directory = Directory(path: string)

  /** One entry of `systemd.units`. */
  datatype SystemdUnit = SystemdUnit(name: string, enabled: bool)

  /** The whole document: `ignition.version`, `storage` and `systemd`. */
  datatype Config = Config(version: string, directories: seq<Directory>, files: seq<File>, units: seq<SystemdUnit>)

  /** A file entry to be read from disk: destination path, source and mode. */
  datatype Planned = Planned(dest: string, src: SourcePath, mode: int)

  const Mode644: int := 420  // 0o644
  const Mode600: int := 384  // 0o600

  const IgnitionVersion: string := "3.2.0"
  const DataUriPrefix: string := "data:text/plain;base64,"

  // Source locations, relative to the stage directory
  const ConfigDir: SourcePath := "config/"
  const PkiDir: SourcePath := "generated/pki/"
  const EtcdPkiDir: SourcePath := PkiDir + "etcd/"
  const KubeconfigDir: SourcePath := "generated/kubeconfig/"
  const ManifestsDir: SourcePath := "generated/manifests/"

  // Destination paths on the node
  const RootDest: string := "/"
  const EtcDest: string := RootDest + "etc/"
  const KubernetesDest: string := EtcDest + "kubernetes/"
  const HostnameDest: string := EtcDest + "hostname"
  const AuthorizedKeysDest: string := RootDest + "home/core/.ssh/authorized_keys"
  const KubeletConfigDest: string := KubernetesDest + "kubelet-config.yaml"
  const SystemdDest: string := EtcDest + "systemd/"
  const KubeletDropInDest: string := SystemdDest + "system/kubelet.service.d/20-hardway.conf"
  const KubeletKubeconfigDest: string := KubernetesDest + "kubelet.kubeconfig"
  const PkiDest: string := KubernetesDest + "pki/"
  const EtcdPkiDest: string := PkiDest + "etcd/"
  const ManifestDest: string := KubernetesDest + "manifests/"

  /** The two template files every node receives. */
  const CommonFiles: seq<Planned> := [
    Planned(KubeletConfigDest, ConfigDir + "kubelet-config.yaml", Mode644),
    Planned(KubeletDropInDest, ConfigDir + "systemd/kubelet-override.conf", Mode644)
  ]

  /** The directories every document asks for, in this order. */
  const Directories: seq<string> := [
    "/etc/systemd/system/kubelet.service.d",
    "/etc/kubernetes",
    "/etc/kubernetes/pki",
    "/etc/kubernetes/pki/etcd",
    "/etc/kubernetes/manifests",
    "/home/core/.ssh"
  ]

  const KubeletUnit: SystemdUnit := SystemdUnit("kubelet.service", true)

  /** The octets a `source` written by this generator carries; None for any other text. */
  function Payload(source: string): Option<seq<byte>> {
    if StartsWith(source, DataUriPrefix) then Base64.Decode(source[|DataUriPrefix|..]) else None
  }

  /** An RFC 2397 data URI holding `data` in Base64. */
  function DataUri(data: seq<byte>): (s: string)
    ensures StartsWith(s, DataUriPrefix)
  {
    var s := DataUriPrefix + Base64.Encode(data);
    assert s[..|DataUriPrefix|] == DataUriPrefix;
    s
  }

  /** A data URI carries exactly the octets it was built from. */
  lemma DataUriPayload(data: seq<byte>)
    ensures Payload(DataUri(data)) == Some(data)
  {
    var s := DataUri(data);
    assert s[|DataUriPrefix|..] == Base64.Encode(data);
    Base64.DecodeEncode(data);
  }

  /** `file_entry`: the source's bytes at `path` with `mode`, or the read error. */
  function FileEntry(path: string, src: SourcePath, mode: int, disk: Disk): (r: Result<File, ReadError>)
    ensures r.Ok? <==> src in disk.files
    ensures r.Ok? ==> r.value.path == path && r.value.mode == mode
    ensures r.Err? ==> r.error == SourceReadError(src)
  {
    if src in disk.files then Ok(File(path, mode, DataUri(disk.files[src]))) else Err(SourceReadError(src))
  }

  /** `inline_entry`: the UTF-8 encoding of `contents` at `path` with `mode`. */
  function InlineEntry(path: string, contents: string, mode: int): (f: File)
    ensures f.path == path && f.mode == mode
  {
    File(path, mode, DataUri(Utf8.Encode(contents)))
  }

  /** The text an inline `source` carries: its payload read as UTF-8. */
  function InlineText(source: string): Option<string> {
    match Payload(source)
    case None => None
    case Some(bytes) => Utf8.Decode(bytes)
  }

  /** A file entry carries the bytes of its source file. */
  lemma FileEntryPayload(path: string, src: SourcePath, mode: int, disk: Disk)
    requires src in disk.files
    ensures Payload(FileEntry(path, src, mode, disk).value.source) == Some(disk.files[src])
  {
    DataUriPayload(disk.files[src]);
  }

  /** An inline entry carries the UTF-8 encoding of its text, which decodes back to that text. */
  lemma InlineEntryPayload(path: string, contents: string, mode: int)
    ensures Payload(InlineEntry(path, contents, mode).source) == Some(Utf8.Encode(contents))
    ensures InlineText(InlineEntry(path, contents, mode).source) == Some(contents)
  {
    DataUriPayload(Utf8.Encode(contents));
    Utf8.DecodeEncode(contents);
  }

  /** /etc/hostname, holding the node's fully qualified name and a newline. */
  function HostnameEntry(ctx: Env.ClusterContext, node: string): (f: File)
    ensures f.path == HostnameDest && f.mode == Mode644
  {
    InlineEntry(HostnameDest, node + "." + ctx.domain + "\n", Mode644)
  }

  /** The hostname entry's text is `<node>.<domain>` and a newline. */
  lemma HostnameText(ctx: Env.ClusterContext, node: string)
    ensures InlineText(HostnameEntry(ctx, node).source) == Some(node + "." + ctx.domain + "\n")
  {
    InlineEntryPayload(HostnameDest, node + "." + ctx.domain + "\n", Mode644);
  }

  /** The core user's authorized_keys, holding the SSH public key and a newline. */
  function AuthorizedKeysEntry(ctx: Env.ClusterContext): (f: File)
    ensures f.path == AuthorizedKeysDest && f.mode == Mode600
  {
    InlineEntry(AuthorizedKeysDest, ctx.sshPubKey + "\n", Mode600)
  }

  /** The authorized_keys entry's text is the SSH public key and a newline. */
  lemma AuthorizedKeysText(ctx: Env.ClusterContext)
    ensures InlineText(AuthorizedKeysEntry(ctx).source) == Some(ctx.sshPubKey + "\n")
  {
    InlineEntryPayload(AuthorizedKeysDest, ctx.sshPubKey + "\n", Mode600);
  }

  function KubeletKubeconfigSource(node: string): SourcePath {
    KubeconfigDir + "kubelet-" + node + ".kubeconfig"
  }

  function ManifestDirSource(node: string): SourcePath {
    ManifestsDir + node
  }

  /** An artifact of a control-plane table: its file name, as stem and extension, and the mode it is installed with. */
  datatype Artifact = Artifact(stem: string, ext: string, mode: int) {
    function Name(): string {
      stem + ext
    }
  }

  /** The cluster PKI every control-plane node receives. */
  const PkiArtifacts: seq<Artifact> := [
    Artifact("ca", ".crt", Mode644),
    Artifact("ca", ".key", Mode600),
    Artifact("apiserver", ".crt", Mode644),
    Artifact("apiserver", ".key", Mode600),
    Artifact("apiserver-kubelet-client", ".crt", Mode644),
    Artifact("apiserver-kubelet-client", ".key", Mode600),
    Artifact("front-proxy-ca", ".crt", Mode644),
    Artifact("front-proxy-client", ".crt", Mode644),
    Artifact("front-proxy-client", ".key", Mode600),
    Artifact("sa", ".key", Mode600),
    Artifact("sa", ".pub", Mode644)
  ]

  /** The etcd pairs issued to one node: these names follow the node's name. */
  const EtcdNodeArtifacts: seq<Artifact> := [
    Artifact("-server", ".crt", Mode644),
    Artifact("-server", ".key", Mode600),
    Artifact("-peer", ".crt", Mode644),
    Artifact("-peer", ".key", Mode600),
    Artifact("-client", ".crt", Mode644),
    Artifact("-client", ".key", Mode600)
  ]

  /** The etcd CA and the API server's etcd client pair, shared by all control-plane nodes. */
  const EtcdSharedArtifacts: seq<Artifact> := [
    Artifact("ca", ".crt", Mode644),
    Artifact("apiserver-etcd-client", ".crt", Mode644),
    Artifact("apiserver-etcd-client", ".key", Mode600)
  ]

  /** The kubeconfigs of the controller manager and the scheduler. */
  const KubeconfigArtifacts: seq<Artifact> := [
    Artifact("kube-controller-manager", ".kubeconfig", Mode600),
    Artifact("kube-scheduler", ".kubeconfig", Mode600)
  ]

  /**
   * One triple per artifact, in table order: installed at `destDir + prefix + name`
   * from `srcDir + prefix + name`.
   */
  function Table(destDir: string, srcDir: SourcePath, prefix: string, artifacts: seq<Artifact>): (plan: seq<Planned>)
    ensures |plan| == |artifacts|
  {
    seq(|artifacts|, i requires 0 <= i < |artifacts| =>
      Planned(destDir + prefix + artifacts[i].Name(), srcDir + prefix + artifacts[i].Name(), artifacts[i].mode))
  }

  /** The certificates, keys and kubeconfigs of a control-plane node, in order. */
  function ControlPlaneFiles(node: string): (plan: seq<Planned>)
    ensures |plan| == 22
  {
    Table(PkiDest, PkiDir, "", PkiArtifacts)
    + Table(EtcdPkiDest, EtcdPkiDir, node, EtcdNodeArtifacts)
    + Table(EtcdPkiDest, EtcdPkiDir, "", EtcdSharedArtifacts)
    + Table(KubernetesDest, KubeconfigDir, "", KubeconfigArtifacts)
  }

  /** The names `glob("*.yaml")` matches. */
  predicate IsYamlName(name: string) {
    EndsWith(name, ".yaml")
  }

  /** The listed names that match `*.yaml`, in listing order. */
  function YamlNames(names: seq<string>): (r: seq<string>)
    ensures forall n :: n in r <==> n in names && IsYamlName(n)
    ensures |r| <= |names|
    decreases |names|
  {
    if |names| == 0 then []
    else if IsYamlName(names[0]) then [names[0]] + YamlNames(names[1..])
    else YamlNames(names[1..])
  }

  /** Filtering keeps listing order: it distributes over concatenation. */
  lemma {:induction false} YamlNamesAppend(a: seq<string>, b: seq<string>)
    ensures YamlNames(a + b) == YamlNames(a) + YamlNames(b)
    decreases |a|
  {
    if |a| == 0 {
      assert a + b == b;
    } else {
      assert (a + b)[0] == a[0];
      assert (a + b)[1..] == a[1..] + b;
      YamlNamesAppend(a[1..], b);
    }
  }

  /** A single listed name is kept, once, exactly when it matches. */
  lemma YamlNamesSingle(name: string)
    ensures YamlNames([name]) == if IsYamlName(name) then [name] else []
  {
    assert [name][1..] == [];
  }

  /** No name occurs twice. */
  predicate NoDuplicates(names: seq<string>) {
    forall i, j | 0 <= i < j < |names| :: names[i] != names[j]
  }

  /** A listing without repeated names keeps none after filtering. */
  lemma {:induction false} YamlNamesNoDups(names: seq<string>)
    requires NoDuplicates(names)
    ensures NoDuplicates(YamlNames(names))
    decreases |names|
  {
    if |names| > 0 {
      var rest := names[1..];
      assert NoDuplicates(rest) by {
        forall i, j | 0 <= i < j < |rest| ensures rest[i] != rest[j] {
          assert rest[i] == names[i + 1] && rest[j] == names[j + 1];
        }
      }
      YamlNamesNoDups(rest);
      if IsYamlName(names[0]) {
        assert names[0] !in rest by {
          forall j | 0 <= j < |rest| ensures rest[j] != names[0] {
            assert rest[j] == names[j + 1];
          }
        }
        var r := YamlNames(names);
        assert r == [names[0]] + YamlNames(rest);
        forall i, j | 0 <= i < j < |r| ensures r[i] != r[j] {
          assert r[j] == YamlNames(rest)[j - 1];
          if i > 0 {
            assert r[i] == YamlNames(rest)[i - 1];
          } else {
            assert r[j] in YamlNames(rest);
          }
        }
      }
    }
  }

  /** One static-pod manifest entry per matching name of a node's manifest directory. */
  function ManifestFiles(node: string, listing: seq<string>): (plan: seq<Planned>)
    ensures |plan| == |YamlNames(listing)|
  {
    var names := YamlNames(listing);
    seq(|names|, i requires 0 <= i < |names| =>
      Planned(ManifestDest + names[i], ManifestDirSource(node) + "/" + names[i], Mode644))
  }

  /** The manifest entries of a node, if its manifest directory exists. */
  function ManifestPlan(node: string, disk: Disk): (plan: seq<Planned>)
    ensures !Exists(disk, ManifestDirSource(node)) ==> plan == []
    ensures Exists(disk, ManifestDirSource(node)) ==> |plan| == |YamlNames(ListDir(disk, ManifestDirSource(node)))|
  {
    var dir := ManifestDirSource(node);
    if Exists(disk, dir) then ManifestFiles(node, ListDir(disk, dir)) else []
  }

  /** The kubelet kubeconfig entry, if that per-node artifact exists. */
  function KubeletPlan(node: string, disk: Disk): (plan: seq<Planned>)
    ensures |plan| <= 1
    ensures |plan| == 1 <==> Exists(disk, KubeletKubeconfigSource(node))
    ensures forall p | p in plan ::
      p == Planned(KubeletKubeconfigDest, KubeletKubeconfigSource(node), Mode600)
  {
    var kc := KubeletKubeconfigSource(node);
    if Exists(disk, kc) then [Planned(KubeletKubeconfigDest, kc, Mode600)] else []
  }

  /** The control-plane certificates a node receives: the table for control-plane nodes, nothing otherwise. */
  function ControlPlaneFilesFor(ctx: Env.ClusterContext, node: string): seq<Planned> {
    if node in ctx.controlPlane then ControlPlaneFiles(node) else []
  }

  /** The manifests a node receives: those of its directory for control-plane nodes, nothing otherwise. */
  function ManifestPlanFor(ctx: Env.ClusterContext, node: string, disk: Disk): seq<Planned> {
    if node in ctx.controlPlane then ManifestPlan(node, disk) else []
  }

  /** Everything a control-plane node receives beyond what every node receives; nothing for a worker. */
  function ControlPlanePlan(ctx: Env.ClusterContext, node: string, disk: Disk): (plan: seq<Planned>)
    ensures node !in ctx.controlPlane ==> plan == []
    ensures node in ctx.controlPlane ==> |plan| == 22 + |ManifestPlan(node, disk)|
  {
    if node in ctx.controlPlane then ControlPlaneFiles(node) + ManifestPlan(node, disk) else []
  }

  /** The control-plane plan is the certificate table followed by the manifests, each for control-plane nodes only. */
  lemma ControlPlanePlanParts(ctx: Env.ClusterContext, node: string, disk: Disk)
    ensures ControlPlanePlan(ctx, node, disk) == ControlPlaneFilesFor(ctx, node) + ManifestPlanFor(ctx, node, disk)
  {
    if node !in ctx.controlPlane {
      assert ControlPlaneFilesFor(ctx, node) + ManifestPlanFor(ctx, node, disk) == [];
    }
  }

  /** All file entries of a node that are read from disk, in the order they are appended. */
  function NodePlan(ctx: Env.ClusterContext, node: string, disk: Disk): seq<Planned> {
    CommonFiles + KubeletPlan(node, disk) + ControlPlanePlan(ctx, node, disk)
  }

  /** Reads every planned source in order, failing on the first that cannot be read. */
  function ReadAll(plan: seq<Planned>, disk: Disk): (r: Result<seq<File>, ReadError>)
    ensures r.Ok? ==> |r.value| == |plan|
    decreases |plan|
  {
    if |plan| == 0 then Ok([])
    else
      var e :- FileEntry(plan[0].dest, plan[0].src, plan[0].mode, disk);
      var rest :- ReadAll(plan[1..], disk);
      Ok([e] + rest)
  }

  /**
   * Reading succeeds exactly when every source is readable, and then gives
   * one entry per triple, with its destination, mode and the source's bytes.
   */
  lemma {:induction false} ReadAllOk(plan: seq<Planned>, disk: Disk)
    ensures ReadAll(plan, disk).Ok? <==> forall i | 0 <= i < |plan| :: plan[i].src in disk.files
    ensures ReadAll(plan, disk).Ok? ==> forall i | 0 <= i < |plan| ::
      ReadAll(plan, disk).value[i] == FileEntry(plan[i].dest, plan[i].src, plan[i].mode, disk).value
    decreases |plan|
  {
    if |plan| > 0 {
      ReadAllOk(plan[1..], disk);
      if ReadAll(plan, disk).Ok? {
        var v := ReadAll(plan, disk).value;
        forall i | 0 <= i < |plan|
          ensures v[i] == FileEntry(plan[i].dest, plan[i].src, plan[i].mode, disk).value
        {
          if i > 0 {
            assert plan[1..][i - 1] == plan[i];
          }
        }
      } else if plan[0].src in disk.files {
        var i :| 0 <= i < |plan[1..]| && plan[1..][i].src !in disk.files;
        assert plan[i + 1].src !in disk.files;
      }
    }
  }

  /** A failed read names the first unreadable source of the plan. */
  lemma {:induction false} ReadAllErr(plan: seq<Planned>, disk: Disk, k: nat)
    requires k < |plan| && plan[k].src !in disk.files
    requires forall j | 0 <= j < k :: plan[j].src in disk.files
    ensures ReadAll(plan, disk) == Err(SourceReadError(plan[k].src))
    decreases k
  {
    if k > 0 {
      ReadAllErr(plan[1..], disk, k - 1);
    }
  }

  /** One step of reading a non-empty plan. */
  lemma ReadAllStep(plan: seq<Planned>, disk: Disk)
    requires |plan| > 0
    ensures plan[0].src !in disk.files ==> ReadAll(plan, disk) == Err(SourceReadError(plan[0].src))
    ensures plan[0].src in disk.files && ReadAll(plan[1..], disk).Err? ==> ReadAll(plan, disk) == ReadAll(plan[1..], disk)
    ensures plan[0].src in disk.files && ReadAll(plan[1..], disk).Ok? ==>
      ReadAll(plan, disk) == Ok([FileEntry(plan[0].dest, plan[0].src, plan[0].mode, disk).value] + ReadAll(plan[1..], disk).value)
  {
  }

  lemma SeqAssoc<T>(x: seq<T>, y: seq<T>, z: seq<T>)
    ensures x + y + z == x + (y + z)
  {
  }

  /** Reading a concatenation: the first part's error, else the second part's, else both results. */
  lemma {:induction false} ReadAllAppend(a: seq<Planned>, b: seq<Planned>, disk: Disk)
    ensures ReadAll(a, disk).Err? ==> ReadAll(a + b, disk) == ReadAll(a, disk)
    ensures ReadAll(a, disk).Ok? && ReadAll(b, disk).Err? ==> ReadAll(a + b, disk) == ReadAll(b, disk)
    ensures ReadAll(a, disk).Ok? && ReadAll(b, disk).Ok? ==>
      ReadAll(a + b, disk) == Ok(ReadAll(a, disk).value + ReadAll(b, disk).value)
    decreases |a|
  {
    if |a| == 0 {
      assert a + b == b;
      if ReadAll(b, disk).Ok? {
        assert ReadAll(a, disk).value + ReadAll(b, disk).value == ReadAll(b, disk).value;
      }
    } else {
      var ab := a + b;
      assert ab[0] == a[0];
      assert ab[1..] == a[1..] + b;
      ReadAllStep(a, disk);
      ReadAllStep(ab, disk);
      ReadAllAppend(a[1..], b, disk);
      if a[0].src in disk.files && ReadAll(a[1..], disk).Ok? && ReadAll(b, disk).Ok? {
        var e: seq<File> := [FileEntry(a[0].dest, a[0].src, a[0].mode, disk).value];
        var x: seq<File> := ReadAll(a[1..], disk).value;
        var y: seq<File> := ReadAll(b, disk).value;
        SeqAssoc(e, x, y);
      }
    }
  }

  /** The six directories, as `storage.directories` entries. */
  function DirectoryEntries(): (ds: seq<Directory>)
    ensures |ds| == |Directories|
    ensures forall i | 0 <= i < |ds| :: ds[i].path == Directories[i]
  {
    seq(|Directories|, i requires 0 <= i < |Directories| => Directory(Directories[i]))
  }

  /** The document of one node, or the error that aborts the run. */
  function NodeConfig(ctx: Env.ClusterContext, node: string, disk: Disk): (r: Result<Config, ReadError>)
  {
    var files :- ReadAll(NodePlan(ctx, node, disk), disk);
    Ok(Config(IgnitionVersion, DirectoryEntries(),
              [HostnameEntry(ctx, node), AuthorizedKeysEntry(ctx)] + files,
              [KubeletUnit]))
  }

  /**
   * Appends one entry per planned source to `files`, in order, stopping
   * at the first source that cannot be read.
   */
  method AppendEntries(files: seq<File>, plan: seq<Planned>, disk: Disk) returns (r: Result<seq<File>, ReadError>)
    ensures r.Ok? <==> ReadAll(plan, disk).Ok?
    ensures r.Ok? ==> r.value == files + ReadAll(plan, disk).value
    ensures r.Err? ==> r.error == ReadAll(plan, disk).error
  {
    var acc := files;
    for i := 0 to |plan|
      invariant ReadAll(plan[..i], disk).Ok?
      invariant acc == files + ReadAll(plan[..i], disk).value
    {
      ReadPrefixStep(plan, i, disk);
      var e :- FileEntry(plan[i].dest, plan[i].src, plan[i].mode, disk);
      SeqAssoc(files, ReadAll(plan[..i], disk).value, [e]);
      acc := acc + [e];
    }
    assert plan[..|plan|] == plan;
    r := Ok(acc);
  }

  /** Reading a one-triple plan: its entry, or its source's error. */
  lemma ReadOne(p: Planned, disk: Disk)
    ensures p.src in disk.files ==> ReadAll([p], disk) == Ok([FileEntry(p.dest, p.src, p.mode, disk).value])
    ensures p.src !in disk.files ==> ReadAll([p], disk) == Err(SourceReadError(p.src))
  {
    assert [p][1..] == [];
    ReadAllStep([p], disk);
    if p.src in disk.files {
      var e := FileEntry(p.dest, p.src, p.mode, disk).value;
      assert [e] + [] == [e];
    }
  }

  /** Reading one more triple of a plan whose prefix has been read. */
  lemma ReadPrefixStep(plan: seq<Planned>, i: nat, disk: Disk)
    requires i < |plan| && ReadAll(plan[..i], disk).Ok?
    ensures plan[i].src in disk.files ==>
      ReadAll(plan[..i + 1], disk) ==
      Ok(ReadAll(plan[..i], disk).value + [FileEntry(plan[i].dest, plan[i].src, plan[i].mode, disk).value])
    ensures plan[i].src !in disk.files ==> ReadAll(plan, disk) == Err(SourceReadError(plan[i].src))
  {
    assert plan[..i + 1] == plan[..i] + [plan[i]];
    ReadOne(plan[i], disk);
    ReadAllAppend(plan[..i], [plan[i]], disk);
    if plan[i].src !in disk.files {
      assert plan == plan[..i + 1] + plan[i + 1..];
      ReadAllAppend(plan[..i + 1], plan[i + 1..], disk);
    }
  }

  /**
   * A node's document read stage by stage, in the order `ignition_for_node`
   * appends: template files, kubelet kubeconfig, control-plane table, manifests.
   */
  function StagedConfig(ctx: Env.ClusterContext, node: string, disk: Disk): Result<Config, ReadError> {
    var c :- ReadAll(CommonFiles, disk);
    var k :- ReadAll(KubeletPlan(node, disk), disk);
    var p :- ReadAll(ControlPlaneFilesFor(ctx, node), disk);
    var m :- ReadAll(ManifestPlanFor(ctx, node, disk), disk);
    Ok(Config(IgnitionVersion, DirectoryEntries(),
              [HostnameEntry(ctx, node), AuthorizedKeysEntry(ctx)] + c + k + p + m,
              [KubeletUnit]))
  }

  /** Reading the plan stage by stage gives the same document or error as reading it at once. */
  lemma NodeConfigStages(ctx: Env.ClusterContext, node: string, disk: Disk)
    ensures NodeConfig(ctx, node, disk) == StagedConfig(ctx, node, disk)
  {
    var lead := [HostnameEntry(ctx, node), AuthorizedKeysEntry(ctx)];
    var common, kc := CommonFiles, KubeletPlan(node, disk);
    var cpf, mp := ControlPlaneFilesFor(ctx, node), ManifestPlanFor(ctx, node, disk);
    ControlPlanePlanParts(ctx, node, disk);
    ReadAllAppend(common + kc, cpf + mp, disk);
    ReadAllAppend(common, kc, disk);
    ReadAllAppend(cpf, mp, disk);
    var c, k, p, m := ReadAll(common, disk), ReadAll(kc, disk), ReadAll(cpf, disk), ReadAll(mp, disk);
    if c.Ok? && k.Ok? && p.Ok? && m.Ok? {
      SeqAssoc(c.value, k.value, p.value + m.value);
      SeqAssoc(c.value + k.value, p.value, m.value);
      assert ReadAll(NodePlan(ctx, node, disk), disk).value == c.value + k.value + p.value + m.value;
      SeqAssoc(lead, c.value + k.value + p.value, m.value);
      SeqAssoc(lead, c.value + k.value, p.value);
      SeqAssoc(lead, c.value, k.value);
    }
  }

  /** `ignition_for_node`: the node's document, built entry by entry. */
  method IgnitionForNode(ctx: Env.ClusterContext, node: string, disk: Disk) returns (r: Result<Config, ReadError>)
    ensures r == NodeConfig(ctx, node, disk)
  {
    NodeConfigStages(ctx, node, disk);
    ghost var lead := [HostnameEntry(ctx, node), AuthorizedKeysEntry(ctx)];
    ghost var kcPlan := KubeletPlan(node, disk);
    ghost var cpPlan, mfPlan := ControlPlaneFilesFor(ctx, node), ManifestPlanFor(ctx, node, disk);

    var files: seq<File> := [];
    files := files + [HostnameEntry(ctx, node)];
    files := files + [AuthorizedKeysEntry(ctx)];
    assert files == lead;

    files :- AppendEntries(files, CommonFiles, disk);
    assert files == lead + ReadAll(CommonFiles, disk).value;

    var kubeletKc := KubeletKubeconfigSource(node);
    if Exists(disk, kubeletKc) {
      ReadAllStep(kcPlan, disk);
      assert kcPlan[1..] == [];
      assert ReadAll(kcPlan[1..], disk) == Ok([]);
      var e :- FileEntry(KubeletKubeconfigDest, kubeletKc, Mode600, disk);
      assert [e] + [] == [e];
      assert ReadAll(kcPlan, disk) == Ok([e]);
      files := files + [e];
    } else {
      assert ReadAll(kcPlan, disk) == Ok([]);
      assert files + [] == files;
    }
    assert ReadAll(kcPlan, disk).Ok?;
    assert files == lead + ReadAll(CommonFiles, disk).value + ReadAll(kcPlan, disk).value;

    if node in ctx.controlPlane {
      files :- AppendEntries(files, ControlPlaneFiles(node), disk);
      var manifestDir := ManifestDirSource(node);
      if Exists(disk, manifestDir) {
        files :- AppendEntries(files, ManifestFiles(node, ListDir(disk, manifestDir)), disk);
      } else {
        assert ReadAll(mfPlan, disk) == Ok([]);
        assert files + [] == files;
      }
    } else {
      assert ReadAll(cpPlan, disk) == Ok([]);
      assert ReadAll(mfPlan, disk) == Ok([]);
      assert files + [] + [] == files;
    }
    assert files == lead + ReadAll(CommonFiles, disk).value + ReadAll(kcPlan, disk).value
      + ReadAll(cpPlan, disk).value + ReadAll(mfPlan, disk).value;

    r := Ok(Config(IgnitionVersion, DirectoryEntries(), files, [KubeletUnit]));
  }
}
