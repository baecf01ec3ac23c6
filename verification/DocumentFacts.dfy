/**
 * What a node's Ignition document holds, entry by entry: the leading
 * inline entries, one entry per planned source with that source's bytes,
 * the fixed directories, unit and version, and when generation fails.
 */
module DocumentFacts {
  import opened Wrappers
  import opened Bytes
  import opened Paths
  import Env
  import opened Ignition
  import opened PlanFacts

  /** A successful document: the version, the six directories, the kubelet unit and the files read in plan order. */
  lemma DocumentShape(ctx: Env.ClusterContext, node: string, disk: Disk)
    requires NodeConfig(ctx, node, disk).Ok?
    ensures ReadAll(NodePlan(ctx, node, disk), disk).Ok?
    ensures NodeConfig(ctx, node, disk).value ==
      Config(IgnitionVersion, DirectoryEntries(),
             [HostnameEntry(ctx, node), AuthorizedKeysEntry(ctx)] + ReadAll(NodePlan(ctx, node, disk), disk).value,
             [KubeletUnit])
  {
  }

  /** Every document has version 3.2.0, the six directories in order and the enabled kubelet unit. */
  lemma FixedFields(ctx: Env.ClusterContext, node: string, disk: Disk)
    requires NodeConfig(ctx, node, disk).Ok?
    ensures var d := NodeConfig(ctx, node, disk).value;
      d.version == "3.2.0" &&
      |d.directories| == 6 &&
      (forall i | 0 <= i < 6 :: d.directories[i].path == Directories[i]) &&
      d.units == [SystemdUnit("kubelet.service", true)]
  {
    DocumentShape(ctx, node, disk);
  }

  /**
   * Generation of a node's document succeeds exactly when every planned
   * source can be read; optional artifacts that are absent are not planned.
   */
  lemma DocumentSucceeds(ctx: Env.ClusterContext, node: string, disk: Disk)
    ensures NodeConfig(ctx, node, disk).Ok? <==>
      forall i | 0 <= i < |NodePlan(ctx, node, disk)| :: NodePlan(ctx, node, disk)[i].src in disk.files
  {
    ReadAllOk(NodePlan(ctx, node, disk), disk);
  }

  /** A failed generation reports the first planned source that cannot be read. */
  lemma DocumentFails(ctx: Env.ClusterContext, node: string, disk: Disk, k: nat)
    requires k < |NodePlan(ctx, node, disk)| && NodePlan(ctx, node, disk)[k].src !in disk.files
    requires forall j | 0 <= j < k :: NodePlan(ctx, node, disk)[j].src in disk.files
    ensures NodeConfig(ctx, node, disk) == Err(SourceReadError(NodePlan(ctx, node, disk)[k].src))
  {
    ReadAllErr(NodePlan(ctx, node, disk), disk, k);
  }

  /**
   * From `start` on, `files` repeats `block`: entry start + i has the
   * destination and mode of triple i and exactly the bytes of its source,
   * which is readable.
   */
  predicate BlockIn(files: seq<File>, disk: Disk, start: nat, block: seq<Planned>) {
    start + |block| <= |files| &&
    forall i | 0 <= i < |block| ::
      block[i].src in disk.files &&
      files[start + i].path == block[i].dest && files[start + i].mode == block[i].mode &&
      Payload(files[start + i].source) == Some(disk.files[block[i].src])
  }

  /** Entries read from a plan, placed after `pre`, repeat the plan from position |pre| on. */
  lemma ReadBlock(pre: seq<File>, plan: seq<Planned>, disk: Disk)
    requires ReadAll(plan, disk).Ok?
    ensures |pre + ReadAll(plan, disk).value| == |pre| + |plan|
    ensures BlockIn(pre + ReadAll(plan, disk).value, disk, |pre|, plan)
  {
    ReadAllOk(plan, disk);
    var read := ReadAll(plan, disk).value;
    var files := pre + read;
    forall i | 0 <= i < |plan|
      ensures plan[i].src in disk.files
      ensures files[|pre| + i].path == plan[i].dest && files[|pre| + i].mode == plan[i].mode
      ensures Payload(files[|pre| + i].source) == Some(disk.files[plan[i].src])
    {
      assert files[|pre| + i] == read[i];
      FileEntryPayload(plan[i].dest, plan[i].src, plan[i].mode, disk);
    }
  }

  /** After the two inline entries, the document holds one entry per planned triple, in plan order. */
  lemma DocumentMatchesPlan(ctx: Env.ClusterContext, node: string, disk: Disk)
    requires NodeConfig(ctx, node, disk).Ok?
    ensures var files, plan := NodeConfig(ctx, node, disk).value.files, NodePlan(ctx, node, disk);
      |files| == 2 + |plan| &&
      files[0] == HostnameEntry(ctx, node) && files[1] == AuthorizedKeysEntry(ctx) &&
      BlockIn(files, disk, 2, plan)
  {
    var plan := NodePlan(ctx, node, disk);
    DocumentShape(ctx, node, disk);
    ReadBlock([HostnameEntry(ctx, node), AuthorizedKeysEntry(ctx)], plan, disk);
  }

  /** A run of the plan starting at `start` shows up in the document two entries later. */
  lemma BlockMatches(files: seq<File>, plan: seq<Planned>, disk: Disk, start: nat, block: seq<Planned>)
    requires BlockIn(files, disk, 2, plan)
    requires start + |block| <= |plan| && plan[start..start + |block|] == block
    ensures BlockIn(files, disk, 2 + start, block)
  {
    forall i | 0 <= i < |block|
      ensures plan[start + i] == block[i]
    {
      assert plan[start..start + |block|][i] == block[i];
    }
  }

  /** The plan from `start` on shows up in the document two entries later. */
  lemma TailMatches(files: seq<File>, plan: seq<Planned>, disk: Disk, start: nat)
    requires BlockIn(files, disk, 2, plan)
    requires start <= |plan|
    ensures BlockIn(files, disk, 2 + start, plan[start..])
  {
    forall i | 0 <= i < |plan| - start
      ensures plan[start..][i] == plan[start + i]
    {
    }
  }

  /**
   * Every document begins with /etc/hostname holding the node's fully
   * qualified name, mode 0o644, then authorized_keys holding the SSH key,
   * mode 0o600.
   */
  lemma InlineEntries(ctx: Env.ClusterContext, node: string, disk: Disk)
    requires NodeConfig(ctx, node, disk).Ok?
    ensures var files := NodeConfig(ctx, node, disk).value.files;
      |files| >= 2 &&
      files[0].path == HostnameDest && files[0].mode == Mode644 &&
      InlineText(files[0].source) == Some(node + "." + ctx.domain + "\n") &&
      files[1].path == AuthorizedKeysDest && files[1].mode == Mode600 &&
      InlineText(files[1].source) == Some(ctx.sshPubKey + "\n")
  {
    DocumentShape(ctx, node, disk);
    InlineEntryPayload(HostnameDest, node + "." + ctx.domain + "\n", Mode644);
    InlineEntryPayload(AuthorizedKeysDest, ctx.sshPubKey + "\n", Mode600);
  }

  /** The next two entries are the template files, in order, mode 0o644, with their bytes. */
  lemma TemplateEntries(ctx: Env.ClusterContext, node: string, disk: Disk)
    requires NodeConfig(ctx, node, disk).Ok?
    ensures var files := NodeConfig(ctx, node, disk).value.files;
      |files| >= 4 &&
      files[2].path == KubeletConfigDest && files[2].mode == Mode644 &&
      CommonFiles[0].src in disk.files && Payload(files[2].source) == Some(disk.files[CommonFiles[0].src]) &&
      files[3].path == KubeletDropInDest && files[3].mode == Mode644 &&
      CommonFiles[1].src in disk.files && Payload(files[3].source) == Some(disk.files[CommonFiles[1].src])
  {
    var plan := NodePlan(ctx, node, disk);
    DocumentMatchesPlan(ctx, node, disk);
    NodePlanLayout(ctx, node, disk);
    assert plan[0] == CommonFiles[0] && plan[1] == CommonFiles[1];
  }

  /** The two inline entries lie outside /etc/kubernetes/. */
  lemma InlineDestsApart()
    ensures !StartsWith(HostnameDest, KubernetesDest)
    ensures !StartsWith(AuthorizedKeysDest, KubernetesDest)
  {
    NotStartsWithAfter(EtcDest, "hostname", "kubernetes/");
    NotStartsWithAfter(RootDest, "home/core/.ssh/authorized_keys", "etc/");
    if StartsWith(AuthorizedKeysDest, KubernetesDest) {
      StartsWithShorter(AuthorizedKeysDest, EtcDest, "kubernetes/");
    }
  }

  /** Entries led by the two inline ones: a path under /etc/kubernetes/ appears exactly where the plan puts it. */
  lemma KubernetesPathIn(files: seq<File>, plan: seq<Planned>, disk: Disk, path: string)
    requires |files| == 2 + |plan| && BlockIn(files, disk, 2, plan)
    requires files[0].path == HostnameDest && files[1].path == AuthorizedKeysDest
    requires StartsWith(path, KubernetesDest)
    ensures (exists i | 0 <= i < |files| :: files[i].path == path) <==>
            (exists i | 0 <= i < |plan| :: plan[i].dest == path)
  {
    InlineDestsApart();
    if i :| 0 <= i < |files| && files[i].path == path {
      assert i >= 2;
      assert plan[i - 2].dest == path;
    }
    if i :| 0 <= i < |plan| && plan[i].dest == path {
      assert files[2 + i].path == path;
    }
  }

  /**
   * The document has an entry for /etc/kubernetes/kubelet.kubeconfig exactly
   * when the node's kubelet kubeconfig exists; then it is the fifth entry,
   * mode 0o600, holding that file's bytes.
   */
  lemma KubeletKubeconfigEntry(ctx: Env.ClusterContext, node: string, disk: Disk)
    requires NodeConfig(ctx, node, disk).Ok?
    ensures var files := NodeConfig(ctx, node, disk).value.files;
      (exists i | 0 <= i < |files| :: files[i].path == KubeletKubeconfigDest)
      <==> Exists(disk, KubeletKubeconfigSource(node))
    ensures var files, kc := NodeConfig(ctx, node, disk).value.files, KubeletKubeconfigSource(node);
      Exists(disk, kc) ==>
        |files| >= 5 && files[4].path == KubeletKubeconfigDest && files[4].mode == Mode600 &&
        kc in disk.files && Payload(files[4].source) == Some(disk.files[kc])
  {
    var files := NodeConfig(ctx, node, disk).value.files;
    var plan := NodePlan(ctx, node, disk);
    DocumentMatchesPlan(ctx, node, disk);
    NodePlanLayout(ctx, node, disk);
    KubeletEntry(ctx, node, disk);
    StartsWithSelf(KubernetesDest, "kubelet.kubeconfig");
    KubernetesPathIn(files, plan, disk, KubeletKubeconfigDest);
    if Exists(disk, KubeletKubeconfigSource(node)) {
      assert files[2 + 2].path == plan[2].dest;
    }
  }

  /**
   * On a control-plane node, after the leading entries and the optional
   * kubelet kubeconfig come the 22 table entries in order, each with its
   * destination, its mode and its source's bytes; the document holds
   * 26 + k + m files, k for the kubelet kubeconfig and m for the manifests.
   */
  lemma ControlPlaneEntries(ctx: Env.ClusterContext, node: string, disk: Disk)
    requires NodeConfig(ctx, node, disk).Ok? && node in ctx.controlPlane
    ensures var files, k := NodeConfig(ctx, node, disk).value.files, |KubeletPlan(node, disk)|;
      |files| == 26 + k + |ManifestPlan(node, disk)| &&
      BlockIn(files, disk, 4 + k, ControlPlaneFiles(node))
  {
    var files, plan := NodeConfig(ctx, node, disk).value.files, NodePlan(ctx, node, disk);
    DocumentMatchesPlan(ctx, node, disk);
    NodePlanLayout(ctx, node, disk);
    BlockMatches(files, plan, disk, 2 + |KubeletPlan(node, disk)|, ControlPlaneFiles(node));
  }

  /** Where `files` repeats a block of classified triples, its entries are classified the same way. */
  lemma BlockModes(files: seq<File>, disk: Disk, start: nat, block: seq<Planned>)
    requires BlockIn(files, disk, start, block)
    requires forall p | p in block ::
      (IsPrivate(p.dest) || IsPublic(p.dest)) &&
      (IsPrivate(p.dest) ==> p.mode == Mode600) &&
      (IsPublic(p.dest) ==> p.mode == Mode644)
    ensures forall i | start <= i < start + |block| ::
      (IsPrivate(files[i].path) || IsPublic(files[i].path)) &&
      (IsPrivate(files[i].path) ==> files[i].mode == Mode600) &&
      (IsPublic(files[i].path) ==> files[i].mode == Mode644)
  {
    forall i | start <= i < start + |block|
      ensures files[i].path == block[i - start].dest && files[i].mode == block[i - start].mode
      ensures block[i - start] in block
    {
      assert files[start + (i - start)] == files[i];
    }
  }

  /**
   * In a control-plane node's table block, every secret (`.key`,
   * `.kubeconfig`) has mode 0o600 and every certificate or public key
   * (`.crt`, `.pub`) has mode 0o644, and each entry is one or the other.
   */
  lemma ControlPlaneDocumentModes(ctx: Env.ClusterContext, node: string, disk: Disk)
    requires NodeConfig(ctx, node, disk).Ok? && node in ctx.controlPlane
    ensures var files, k := NodeConfig(ctx, node, disk).value.files, |KubeletPlan(node, disk)|;
      26 + k <= |files| &&
      forall i | 4 + k <= i < 26 + k ::
        (IsPrivate(files[i].path) || IsPublic(files[i].path)) &&
        (IsPrivate(files[i].path) ==> files[i].mode == Mode600) &&
        (IsPublic(files[i].path) ==> files[i].mode == Mode644)
  {
    var files, k := NodeConfig(ctx, node, disk).value.files, |KubeletPlan(node, disk)|;
    ControlPlaneEntries(ctx, node, disk);
    ControlPlaneModes(node);
    BlockModes(files, disk, 4 + k, ControlPlaneFiles(node));
  }

  /**
   * On a control-plane node the document ends with the manifest entries, in
   * plan order, each with its destination, mode and source's bytes (what
   * those entries are, and that an absent manifest directory gives none, is
   * `PlanFacts.ManifestEntries`).
   */
  lemma ManifestDocumentEntries(ctx: Env.ClusterContext, node: string, disk: Disk)
    requires NodeConfig(ctx, node, disk).Ok? && node in ctx.controlPlane
    ensures var files, k := NodeConfig(ctx, node, disk).value.files, |KubeletPlan(node, disk)|;
      |files| == 26 + k + |ManifestPlan(node, disk)| &&
      BlockIn(files, disk, 26 + k, ManifestPlan(node, disk))
  {
    var files, plan := NodeConfig(ctx, node, disk).value.files, NodePlan(ctx, node, disk);
    DocumentMatchesPlan(ctx, node, disk);
    NodePlanLayout(ctx, node, disk);
    TailMatches(files, plan, disk, 24 + |KubeletPlan(node, disk)|);
  }

  /** Entries led by the two inline ones avoid a directory under /etc/kubernetes/ when the plan does. */
  lemma OutsideDirectory(files: seq<File>, plan: seq<Planned>, disk: Disk, dir: string)
    requires |files| == 2 + |plan| && BlockIn(files, disk, 2, plan)
    requires files[0].path == HostnameDest && files[1].path == AuthorizedKeysDest
    requires StartsWith(dir, KubernetesDest)
    requires forall p | p in plan :: !StartsWith(p.dest, dir)
    ensures forall i | 0 <= i < |files| :: !StartsWith(files[i].path, dir)
  {
    InlineDestsApart();
    forall i | 0 <= i < |files|
      ensures !StartsWith(files[i].path, dir)
    {
      if i < 2 {
        StartsWithTrans(files[i].path, dir, KubernetesDest);
      } else {
        assert plan[i - 2] in plan;
      }
    }
  }

  /**
   * A worker's document holds the four leading entries and the optional
   * kubelet kubeconfig, nothing under /etc/kubernetes/pki/ and no manifest.
   */
  lemma WorkerDocument(ctx: Env.ClusterContext, node: string, disk: Disk)
    requires NodeConfig(ctx, node, disk).Ok? && node !in ctx.controlPlane
    ensures var files := NodeConfig(ctx, node, disk).value.files;
      |files| == 4 + |KubeletPlan(node, disk)| &&
      forall i | 0 <= i < |files| :: !StartsWith(files[i].path, PkiDest) && !StartsWith(files[i].path, ManifestDest)
  {
    var files, plan := NodeConfig(ctx, node, disk).value.files, NodePlan(ctx, node, disk);
    DocumentMatchesPlan(ctx, node, disk);
    NodePlanLayout(ctx, node, disk);
    WorkerPlan(ctx, node, disk);
    StartsWithSelf(KubernetesDest, "pki/");
    StartsWithSelf(KubernetesDest, "manifests/");
    OutsideDirectory(files, plan, disk, PkiDest);
    OutsideDirectory(files, plan, disk, ManifestDest);
  }

  /** Without its manifest directory, a node's document has no entry under /etc/kubernetes/manifests/. */
  lemma NoManifestEntries(ctx: Env.ClusterContext, node: string, disk: Disk)
    requires NodeConfig(ctx, node, disk).Ok? && !Exists(disk, ManifestDirSource(node))
    ensures var files := NodeConfig(ctx, node, disk).value.files;
      forall i | 0 <= i < |files| :: !StartsWith(files[i].path, ManifestDest)
  {
    var files, plan := NodeConfig(ctx, node, disk).value.files, NodePlan(ctx, node, disk);
    DocumentMatchesPlan(ctx, node, disk);
    NoManifestDirectory(ctx, node, disk);
    StartsWithSelf(KubernetesDest, "manifests/");
    OutsideDirectory(files, plan, disk, ManifestDest);
  }
}
