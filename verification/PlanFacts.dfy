/**
 * What a node's plan holds: which triples, in which order, with which
 * modes, depending on the node's role and on the optional artifacts.
 */
module PlanFacts {
  import opened Paths
  import Env
  import opened Ignition

  /** A private key or a kubeconfig: secret material. */
  predicate IsPrivate(path: string) {
    EndsWith(path, ".key") || EndsWith(path, ".kubeconfig")
  }

  /** A certificate or a public key. */
  predicate IsPublic(path: string) {
    EndsWith(path, ".crt") || EndsWith(path, ".pub")
  }

  /** No path is both secret and public: the two kinds end in different characters. */
  lemma PrivateNotPublic(path: string)
    ensures !(IsPrivate(path) && IsPublic(path))
  {
    EndsWithLast(path, ".key");
    EndsWithLast(path, ".kubeconfig");
    EndsWithLast(path, ".crt");
    EndsWithLast(path, ".pub");
  }

  /** An artifact whose mode matches its kind: 0o600 for secrets, 0o644 for public material. */
  predicate Classified(a: Artifact) {
    ((a.ext == ".key" || a.ext == ".kubeconfig") && a.mode == Mode600) ||
    ((a.ext == ".crt" || a.ext == ".pub") && a.mode == Mode644)
  }

  lemma TablesClassified()
    ensures forall a | a in PkiArtifacts :: Classified(a)
    ensures forall a | a in EtcdNodeArtifacts :: Classified(a)
    ensures forall a | a in EtcdSharedArtifacts :: Classified(a)
    ensures forall a | a in KubeconfigArtifacts :: Classified(a)
  {
  }

  /** The triple of a table entry is secret or public as its artifact is, with its mode. */
  lemma TableClassified(destDir: string, srcDir: SourcePath, prefix: string, artifacts: seq<Artifact>)
    requires forall a | a in artifacts :: Classified(a)
    ensures forall p | p in Table(destDir, srcDir, prefix, artifacts) ::
      (IsPrivate(p.dest) && p.mode == Mode600) || (IsPublic(p.dest) && p.mode == Mode644)
  {
    var plan := Table(destDir, srcDir, prefix, artifacts);
    forall p | p in plan
      ensures (IsPrivate(p.dest) && p.mode == Mode600) || (IsPublic(p.dest) && p.mode == Mode644)
    {
      var i :| 0 <= i < |plan| && plan[i] == p;
      var a := artifacts[i];
      assert a in artifacts;
      var stem := destDir + prefix + a.stem;
      assert p.dest == stem + a.ext;
      EndsWithSelf(stem, a.ext);
    }
  }

  /**
   * Every entry of the control-plane table is a secret installed with mode
   * 0o600 or public material installed with mode 0o644.
   */
  lemma ControlPlaneModes(node: string)
    ensures forall p | p in ControlPlaneFiles(node) ::
      (IsPrivate(p.dest) || IsPublic(p.dest)) &&
      (IsPrivate(p.dest) ==> p.mode == Mode600) &&
      (IsPublic(p.dest) ==> p.mode == Mode644)
  {
    TablesClassified();
    var t1 := Table(PkiDest, PkiDir, "", PkiArtifacts);
    var t2 := Table(EtcdPkiDest, EtcdPkiDir, node, EtcdNodeArtifacts);
    var t3 := Table(EtcdPkiDest, EtcdPkiDir, "", EtcdSharedArtifacts);
    var t4 := Table(KubernetesDest, KubeconfigDir, "", KubeconfigArtifacts);
    TableClassified(PkiDest, PkiDir, "", PkiArtifacts);
    TableClassified(EtcdPkiDest, EtcdPkiDir, node, EtcdNodeArtifacts);
    TableClassified(EtcdPkiDest, EtcdPkiDir, "", EtcdSharedArtifacts);
    TableClassified(KubernetesDest, KubeconfigDir, "", KubeconfigArtifacts);
    forall p | p in ControlPlaneFiles(node)
      ensures (IsPrivate(p.dest) || IsPublic(p.dest)) &&
        (IsPrivate(p.dest) ==> p.mode == Mode600) &&
        (IsPublic(p.dest) ==> p.mode == Mode644)
    {
      assert p in t1 || p in t2 || p in t3 || p in t4;
      PrivateNotPublic(p.dest);
    }
  }

  /** Every triple of a table is installed under `destDir + prefix`, from under `srcDir + prefix`. */
  lemma TableUnder(destDir: string, srcDir: SourcePath, prefix: string, artifacts: seq<Artifact>)
    ensures forall p | p in Table(destDir, srcDir, prefix, artifacts) ::
      StartsWith(p.dest, destDir + prefix) && StartsWith(p.src, srcDir + prefix)
  {
    var plan := Table(destDir, srcDir, prefix, artifacts);
    forall p | p in plan
      ensures StartsWith(p.dest, destDir + prefix) && StartsWith(p.src, srcDir + prefix)
    {
      var i :| 0 <= i < |plan| && plan[i] == p;
      StartsWithSelf(destDir + prefix, artifacts[i].Name());
      StartsWithSelf(srcDir + prefix, artifacts[i].Name());
    }
  }

  /** The table is its four groups, in order. */
  lemma ControlPlaneGroups(node: string)
    ensures ControlPlaneFiles(node) ==
      Table(PkiDest, PkiDir, "", PkiArtifacts) + Table(EtcdPkiDest, EtcdPkiDir, node, EtcdNodeArtifacts)
      + Table(EtcdPkiDest, EtcdPkiDir, "", EtcdSharedArtifacts) + Table(KubernetesDest, KubeconfigDir, "", KubeconfigArtifacts)
  {
  }

  /** The first eleven entries of the control-plane table are the cluster PKI, under /etc/kubernetes/pki/. */
  lemma ControlPlanePki(node: string)
    ensures forall i | 0 <= i < 11 ::
      StartsWith(ControlPlaneFiles(node)[i].dest, PkiDest) && StartsWith(ControlPlaneFiles(node)[i].src, PkiDir)
  {
    var t1 := Table(PkiDest, PkiDir, "", PkiArtifacts);
    ControlPlaneGroups(node);
    assert PkiDest + "" == PkiDest && PkiDir + "" == PkiDir;
    TableUnder(PkiDest, PkiDir, "", PkiArtifacts);
    forall i | 0 <= i < 11
      ensures StartsWith(ControlPlaneFiles(node)[i].dest, PkiDest) && StartsWith(ControlPlaneFiles(node)[i].src, PkiDir)
    {
      assert ControlPlaneFiles(node)[i] == t1[i] && t1[i] in t1;
    }
  }

  /**
   * The next nine are etcd files under /etc/kubernetes/pki/etcd/: the first
   * six named after the node itself, the last three shared.
   */
  lemma ControlPlaneEtcd(node: string)
    ensures forall i | 11 <= i < 20 ::
      StartsWith(ControlPlaneFiles(node)[i].dest, EtcdPkiDest) && StartsWith(ControlPlaneFiles(node)[i].src, EtcdPkiDir)
    ensures forall i | 11 <= i < 17 ::
      StartsWith(ControlPlaneFiles(node)[i].dest, EtcdPkiDest + node) && StartsWith(ControlPlaneFiles(node)[i].src, EtcdPkiDir + node)
  {
    var cp := ControlPlaneFiles(node);
    var t2 := Table(EtcdPkiDest, EtcdPkiDir, node, EtcdNodeArtifacts);
    var t3 := Table(EtcdPkiDest, EtcdPkiDir, "", EtcdSharedArtifacts);
    ControlPlaneGroups(node);
    assert EtcdPkiDest + "" == EtcdPkiDest && EtcdPkiDir + "" == EtcdPkiDir;
    TableUnder(EtcdPkiDest, EtcdPkiDir, node, EtcdNodeArtifacts);
    TableUnder(EtcdPkiDest, EtcdPkiDir, "", EtcdSharedArtifacts);
    forall i | 11 <= i < 17
      ensures StartsWith(cp[i].dest, EtcdPkiDest + node) && StartsWith(cp[i].src, EtcdPkiDir + node)
      ensures StartsWith(cp[i].dest, EtcdPkiDest) && StartsWith(cp[i].src, EtcdPkiDir)
    {
      assert cp[i] == t2[i - 11] && t2[i - 11] in t2;
      StartsWithShorter(cp[i].dest, EtcdPkiDest, node);
      StartsWithShorter(cp[i].src, EtcdPkiDir, node);
    }
    forall i | 17 <= i < 20
      ensures StartsWith(cp[i].dest, EtcdPkiDest) && StartsWith(cp[i].src, EtcdPkiDir)
    {
      assert cp[i] == t3[i - 17] && t3[i - 17] in t3;
    }
  }

  /** The last two are the controller manager's and the scheduler's kubeconfigs, mode 0o600. */
  lemma ControlPlaneKubeconfigs(node: string)
    ensures ControlPlaneFiles(node)[20] == Planned(KubernetesDest + "kube-controller-manager.kubeconfig",
                                                   KubeconfigDir + "kube-controller-manager.kubeconfig", Mode600)
    ensures ControlPlaneFiles(node)[21] == Planned(KubernetesDest + "kube-scheduler.kubeconfig",
                                                   KubeconfigDir + "kube-scheduler.kubeconfig", Mode600)
  {
    var front := Table(PkiDest, PkiDir, "", PkiArtifacts) + Table(EtcdPkiDest, EtcdPkiDir, node, EtcdNodeArtifacts)
      + Table(EtcdPkiDest, EtcdPkiDir, "", EtcdSharedArtifacts);
    var t4 := Table(KubernetesDest, KubeconfigDir, "", KubeconfigArtifacts);
    ControlPlaneGroups(node);
    assert |front| == 20 && ControlPlaneFiles(node) == front + t4;
    assert KubernetesDest + "" == KubernetesDest && KubeconfigDir + "" == KubeconfigDir;
    assert KubeconfigArtifacts[0].Name() == "kube-controller-manager.kubeconfig";
    assert KubeconfigArtifacts[1].Name() == "kube-scheduler.kubeconfig";
  }

  /** The etcd files under /etc/kubernetes/pki/etcd/ are under /etc/kubernetes/pki/ as well. */
  lemma EtcdUnderPki(path: string)
    requires StartsWith(path, EtcdPkiDest)
    ensures StartsWith(path, PkiDest)
  {
    StartsWithShorter(path, PkiDest, "etcd/");
  }

  /** No control-plane entry is installed where the kubelet kubeconfig goes. */
  lemma ControlPlaneNotKubelet(node: string)
    ensures forall p | p in ControlPlaneFiles(node) :: p.dest != KubeletKubeconfigDest
  {
    var cp := ControlPlaneFiles(node);
    ControlPlanePki(node);
    ControlPlaneEtcd(node);
    ControlPlaneKubeconfigs(node);
    KubeletDestApart();
    forall i | 0 <= i < 22
      ensures cp[i].dest != KubeletKubeconfigDest
    {
      if 11 <= i < 20 {
        EtcdUnderPki(cp[i].dest);
      } else if i == 20 && cp[i].dest == KubeletKubeconfigDest {
        AppendCancel(KubernetesDest, "kube-controller-manager.kubeconfig", "kubelet.kubeconfig");
      } else if i == 21 && cp[i].dest == KubeletKubeconfigDest {
        AppendCancel(KubernetesDest, "kube-scheduler.kubeconfig", "kubelet.kubeconfig");
      }
    }
  }

  /**
   * One manifest entry per listed name matching `*.yaml`, in listing order:
   * installed under /etc/kubernetes/manifests/ with mode 0o644 from the
   * node's manifest directory; none when that directory does not exist.
   */
  lemma ManifestEntries(node: string, disk: Disk)
    ensures var dir := ManifestDirSource(node);
      !Exists(disk, dir) ==> ManifestPlan(node, disk) == []
    ensures var dir := ManifestDirSource(node);
      var names := YamlNames(ListDir(disk, dir));
      Exists(disk, dir) ==>
        |ManifestPlan(node, disk)| == |names| &&
        forall j | 0 <= j < |names| ::
          ManifestPlan(node, disk)[j] == Planned(ManifestDest + names[j], dir + "/" + names[j], Mode644)
    ensures forall p | p in ManifestPlan(node, disk) ::
      StartsWith(p.dest, ManifestDest) && EndsWith(p.dest, ".yaml") && p.mode == Mode644
  {
    var dir := ManifestDirSource(node);
    var names := YamlNames(ListDir(disk, dir));
    var mp := ManifestPlan(node, disk);
    if Exists(disk, dir) {
      forall p | p in mp
        ensures StartsWith(p.dest, ManifestDest) && EndsWith(p.dest, ".yaml") && p.mode == Mode644
      {
        var j :| 0 <= j < |mp| && mp[j] == p;
        assert names[j] in names;
        StartsWithSelf(ManifestDest, names[j]);
        EndsWithAppend(ManifestDest, names[j], ".yaml");
      }
    }
  }

  /** Every listed `*.yaml` name has an entry; no other name has one. */
  lemma ManifestNamesCovered(node: string, disk: Disk, name: string)
    requires Exists(disk, ManifestDirSource(node))
    ensures (exists j | 0 <= j < |ManifestPlan(node, disk)| :: ManifestPlan(node, disk)[j].dest == ManifestDest + name)
            <==> name in ListDir(disk, ManifestDirSource(node)) && IsYamlName(name)
  {
    var names := YamlNames(ListDir(disk, ManifestDirSource(node)));
    var mp := ManifestPlan(node, disk);
    ManifestEntries(node, disk);
    if name in names {
      var j :| 0 <= j < |names| && names[j] == name;
      assert mp[j].dest == ManifestDest + name;
    }
    if j :| 0 <= j < |mp| && mp[j].dest == ManifestDest + name {
      assert ManifestDest + names[j] == ManifestDest + name;
      assert names[j] == (ManifestDest + names[j])[|ManifestDest|..];
      assert names[j] in names;
    }
  }

  /**
   * A directory lists each name once, so each listed `*.yaml` name has
   * exactly one manifest entry.
   */
  lemma ManifestExactlyOne(node: string, disk: Disk, name: string)
    requires Exists(disk, ManifestDirSource(node)) && NoDuplicates(ListDir(disk, ManifestDirSource(node)))
    requires name in ListDir(disk, ManifestDirSource(node)) && IsYamlName(name)
    ensures exists j | 0 <= j < |ManifestPlan(node, disk)| :: ManifestPlan(node, disk)[j].dest == ManifestDest + name
    ensures forall j, k | 0 <= j < |ManifestPlan(node, disk)| && 0 <= k < |ManifestPlan(node, disk)| &&
      ManifestPlan(node, disk)[j].dest == ManifestDest + name && ManifestPlan(node, disk)[k].dest == ManifestDest + name :: j == k
  {
    var names := YamlNames(ListDir(disk, ManifestDirSource(node)));
    var mp := ManifestPlan(node, disk);
    ManifestNamesCovered(node, disk, name);
    ManifestEntries(node, disk);
    YamlNamesNoDups(ListDir(disk, ManifestDirSource(node)));
    forall j, k | 0 <= j < |mp| && 0 <= k < |mp| && mp[j].dest == ManifestDest + name && mp[k].dest == ManifestDest + name
      ensures j == k
    {
      assert names[j] == (ManifestDest + names[j])[|ManifestDest|..];
      assert names[k] == (ManifestDest + names[k])[|ManifestDest|..];
    }
  }

  /**
   * A node's plan, in order: the two template files; the kubelet kubeconfig
   * exactly when it exists; for a control-plane node only, the 22-entry table
   * and then its manifests.
   */
  lemma NodePlanLayout(ctx: Env.ClusterContext, node: string, disk: Disk)
    ensures var plan, k := NodePlan(ctx, node, disk), |KubeletPlan(node, disk)|;
      (k == if Exists(disk, KubeletKubeconfigSource(node)) then 1 else 0) &&
      plan[..2] == CommonFiles &&
      (k == 1 ==> plan[2] == Planned(KubeletKubeconfigDest, KubeletKubeconfigSource(node), Mode600)) &&
      (node in ctx.controlPlane ==>
        |plan| == 24 + k + |ManifestPlan(node, disk)| &&
        plan[2 + k..24 + k] == ControlPlaneFiles(node) &&
        plan[24 + k..] == ManifestPlan(node, disk)) &&
      (node !in ctx.controlPlane ==> |plan| == 2 + k)
  {
    var plan, k := NodePlan(ctx, node, disk), |KubeletPlan(node, disk)|;
    var cp, mp := ControlPlaneFiles(node), ManifestPlan(node, disk);
    assert plan == CommonFiles + KubeletPlan(node, disk) + ControlPlanePlan(ctx, node, disk);
    if node in ctx.controlPlane {
      assert plan == (CommonFiles + KubeletPlan(node, disk)) + cp + mp;
      assert plan[2 + k..24 + k] == cp;
      assert plan[24 + k..] == mp;
    }
  }

  /** Where the template files go is neither under /etc/kubernetes/pki/ nor under /etc/kubernetes/manifests/. */
  lemma TemplateDests()
    ensures forall p | p in CommonFiles :: !StartsWith(p.dest, PkiDest) && !StartsWith(p.dest, ManifestDest)
    ensures forall p | p in CommonFiles :: p.dest != KubeletKubeconfigDest
  {
    NotStartsWithAfter(KubernetesDest, "kubelet-config.yaml", "pki/");
    NotStartsWithAfter(KubernetesDest, "kubelet-config.yaml", "manifests/");
    DropInNotKubernetes();
    if KubeletConfigDest == KubeletKubeconfigDest {
      AppendCancel(KubernetesDest, "kubelet-config.yaml", "kubelet.kubeconfig");
    }
    if KubeletDropInDest == KubeletKubeconfigDest {
      StartsWithSelf(KubernetesDest, "kubelet.kubeconfig");
    }
    assert CommonFiles[0].dest == KubeletConfigDest && CommonFiles[1].dest == KubeletDropInDest;
  }

  /** The systemd drop-in is the one template file outside /etc/kubernetes/. */
  lemma DropInNotKubernetes()
    ensures !StartsWith(KubeletDropInDest, KubernetesDest)
    ensures !StartsWith(KubeletDropInDest, PkiDest) && !StartsWith(KubeletDropInDest, ManifestDest)
  {
    StartsWithSelf(SystemdDest, "system/kubelet.service.d/20-hardway.conf");
    Diverge(KubeletDropInDest, EtcDest, "systemd/", "kubernetes/");
    if StartsWith(KubeletDropInDest, PkiDest) {
      StartsWithShorter(KubeletDropInDest, KubernetesDest, "pki/");
    }
    if StartsWith(KubeletDropInDest, ManifestDest) {
      StartsWithShorter(KubeletDropInDest, KubernetesDest, "manifests/");
    }
  }

  /** The kubelet kubeconfig is neither under /etc/kubernetes/pki/ nor under /etc/kubernetes/manifests/. */
  lemma KubeletDestApart()
    ensures !StartsWith(KubeletKubeconfigDest, PkiDest) && !StartsWith(KubeletKubeconfigDest, ManifestDest)
  {
    NotStartsWithAfter(KubernetesDest, "kubelet.kubeconfig", "pki/");
    NotStartsWithAfter(KubernetesDest, "kubelet.kubeconfig", "manifests/");
  }

  /**
   * An entry for /etc/kubernetes/kubelet.kubeconfig is planned exactly when
   * the node's kubelet kubeconfig exists, and then it is the third entry.
   */
  lemma KubeletEntry(ctx: Env.ClusterContext, node: string, disk: Disk)
    ensures (exists i | 0 <= i < |NodePlan(ctx, node, disk)| :: NodePlan(ctx, node, disk)[i].dest == KubeletKubeconfigDest)
            <==> Exists(disk, KubeletKubeconfigSource(node))
  {
    var plan := NodePlan(ctx, node, disk);
    NodePlanLayout(ctx, node, disk);
    if !Exists(disk, KubeletKubeconfigSource(node)) {
      ControlPlaneNotKubelet(node);
      ManifestEntries(node, disk);
      KubeletDestApart();
      TemplateDests();
      forall i | 0 <= i < |plan|
        ensures plan[i].dest != KubeletKubeconfigDest
      {
        if i < 2 {
          assert plan[i] == CommonFiles[i];
        } else if i < 24 {
          assert plan[i] == ControlPlaneFiles(node)[i - 2];
        } else {
          assert plan[i] == ManifestPlan(node, disk)[i - 24];
        }
      }
    } else {
      assert plan[2].dest == KubeletKubeconfigDest;
    }
  }

  /**
   * A worker (a node outside the control plane) is planned nothing under
   * /etc/kubernetes/pki/ and no manifest.
   */
  lemma WorkerPlan(ctx: Env.ClusterContext, node: string, disk: Disk)
    requires node !in ctx.controlPlane
    ensures forall p | p in NodePlan(ctx, node, disk) :: !StartsWith(p.dest, PkiDest) && !StartsWith(p.dest, ManifestDest)
  {
    var plan := NodePlan(ctx, node, disk);
    NodePlanLayout(ctx, node, disk);
    KubeletDestApart();
    TemplateDests();
    forall p | p in plan
      ensures !StartsWith(p.dest, PkiDest) && !StartsWith(p.dest, ManifestDest)
    {
      var i :| 0 <= i < |plan| && plan[i] == p;
      if i < 2 {
        assert plan[i] == CommonFiles[i];
      }
    }
  }

  /** No control-plane table entry is installed under /etc/kubernetes/manifests/. */
  lemma ControlPlaneNotManifest(node: string)
    ensures forall p | p in ControlPlaneFiles(node) :: !StartsWith(p.dest, ManifestDest)
  {
    var cp := ControlPlaneFiles(node);
    ControlPlanePki(node);
    ControlPlaneEtcd(node);
    ControlPlaneKubeconfigs(node);
    NotStartsWithAfter(KubernetesDest, "kube-controller-manager.kubeconfig", "manifests/");
    NotStartsWithAfter(KubernetesDest, "kube-scheduler.kubeconfig", "manifests/");
    forall i | 0 <= i < 22
      ensures !StartsWith(cp[i].dest, ManifestDest)
    {
      if i < 20 {
        if 11 <= i {
          EtcdUnderPki(cp[i].dest);
        }
        Diverge(cp[i].dest, KubernetesDest, "pki/", "manifests/");
      }
    }
  }

  /** A node whose manifest directory does not exist is planned nothing under /etc/kubernetes/manifests/, whatever its role. */
  lemma NoManifestDirectory(ctx: Env.ClusterContext, node: string, disk: Disk)
    requires !Exists(disk, ManifestDirSource(node))
    ensures forall p | p in NodePlan(ctx, node, disk) :: !StartsWith(p.dest, ManifestDest)
  {
    var kc, cp := KubeletPlan(node, disk), ControlPlanePlan(ctx, node, disk);
    ManifestEntries(node, disk);
    if node in ctx.controlPlane {
      assert cp == ControlPlaneFiles(node) + [];
    }
    TemplateDests();
    KubeletDestApart();
    ControlPlaneNotManifest(node);
    forall p | p in NodePlan(ctx, node, disk)
      ensures !StartsWith(p.dest, ManifestDest)
    {
      assert p in CommonFiles || p in kc || p in cp;
    }
  }
}
