// Model of cmd/clusterctl/client/move.go: the validation and dispatch of
// Move, and the resource mutators applied to the objects being moved.
module Move {

  import opened Wrappers
  import opened Unstructured

  // ---------------------------------------------------------------------
  // Validation and dispatch.

  datatype Kubeconfig = Kubeconfig(path: string, context: string)

  const NoKubeconfig := Kubeconfig("", "")

  datatype MoveOptions = MoveOptions(
    fromKubeconfig: Kubeconfig,
    toKubeconfig: Kubeconfig,
    toPaletteCRD: string,
    namespace: string,
    fromDirectory: string,
    toDirectory: string,
    dryRun: bool,
    ignoreClusterClass: bool,
    clusterName: string,
    toNamespace: string)

  /** A mutator applied to every object moved. */
  datatype Mutator = NamespaceMutator(target: string) | TemplateMutator

  /** What Move does: an error, or the operation it hands over to, with the
      mutators that operation applies. */
  datatype Action =
    | Failed(message: string)
    | ToPaletteCRD(file: string, mutator: Mutator)
    | ToDirectory(directory: string, mutators: seq<Mutator>)
    | FromDirectory(directory: string)
    | ClusterMove(mutators: seq<Mutator>)

  const BothDirectoriesError := "can't set both FromDirectory and ToDirectory"
  const NoTargetError := "at least one of FromDirectory, ToDirectory and ToKubeconfig must be set"

  /** getPaletteMutators: only the namespace mutator, to the target namespace. */
  function PaletteMutators(o: MoveOptions): seq<Mutator>
  {
    [NamespaceMutator(o.toNamespace)]
  }

  /** Move: two checks, then the first of ToPaletteCRD, ToDirectory and
      FromDirectory that is set, else the cluster-to-cluster move. */
  function MoveAction(o: MoveOptions): Action
  {
    if o.fromDirectory != "" && o.toDirectory != "" then Failed(BothDirectoriesError)
    else if !o.dryRun && o.fromDirectory == "" && o.toDirectory == "" &&
            o.toPaletteCRD == "" && o.toKubeconfig == NoKubeconfig then Failed(NoTargetError)
    else if o.toPaletteCRD != "" then ToPaletteCRD(o.toPaletteCRD, TemplateMutator)
    else if o.toDirectory != "" then ToDirectory(o.toDirectory, PaletteMutators(o))
    else if o.fromDirectory != "" then FromDirectory(o.fromDirectory)
    else ClusterMove(PaletteMutators(o))
  }

  /** Move fails exactly on the two invalid combinations; otherwise it picks
      an operation whose input is set, in the order ToPaletteCRD,
      ToDirectory, FromDirectory, and the cluster move only when none is. */
  lemma MoveDispatch(o: MoveOptions)
    ensures MoveAction(o).Failed? <==>
      (o.fromDirectory != "" && o.toDirectory != "") ||
      (!o.dryRun && o.fromDirectory == "" && o.toDirectory == "" && o.toPaletteCRD == "" && o.toKubeconfig == NoKubeconfig)
    ensures MoveAction(o) == Failed(BothDirectoriesError) <==> o.fromDirectory != "" && o.toDirectory != ""
    ensures MoveAction(o).ToPaletteCRD? ==> o.toPaletteCRD != "" && MoveAction(o).mutator == TemplateMutator
    ensures MoveAction(o).ToDirectory? ==> o.toPaletteCRD == "" && o.toDirectory != "" && o.fromDirectory == ""
    ensures MoveAction(o).FromDirectory? ==> o.toPaletteCRD == "" && o.toDirectory == "" && o.fromDirectory != ""
    ensures MoveAction(o).ClusterMove? ==>
      o.toPaletteCRD == "" && o.toDirectory == "" && o.fromDirectory == "" &&
      (o.dryRun || o.toKubeconfig != NoKubeconfig)
    ensures !MoveAction(o).Failed? && o.toPaletteCRD != "" ==> MoveAction(o) == ToPaletteCRD(o.toPaletteCRD, TemplateMutator)
  {
  }

  /** A dry run never fails for want of a target: unless both directories
      are set, it goes ahead even with no target kubeconfig. */
  lemma DryRunNeedsNoTarget(o: MoveOptions)
    requires o.dryRun && !(o.fromDirectory != "" && o.toDirectory != "")
    ensures !MoveAction(o).Failed?
  {
  }

  // ---------------------------------------------------------------------
  // The path tables.

  /** getTemplateMutatorKinds: the fields removed, per kind. */
  const TemplateKinds: map<string, seq<Path>> := map[
    "Cluster" := [
      ["metadata", "annotations"], ["metadata", "creationTimestamp"], ["metadata", "finalizers"],
      ["metadata", "generation"], ["metadata", "managedFields"], ["metadata", "namespace"],
      ["metadata", "resourceVersion"], ["metadata", "uid"],
      ["spec", "controlPlaneRef", "namespace"], ["spec", "infrastructureRef", "namespace"], ["status"]],
    "AWSCluster" := [
      ["metadata", "annotations"], ["metadata", "creationTimestamp"], ["metadata", "ownerReferences"],
      ["metadata", "finalizers"], ["metadata", "generation"], ["metadata", "managedFields"],
      ["metadata", "namespace"], ["metadata", "resourceVersion"], ["metadata", "uid"], ["status"]],
    "AWSMachineTemplate" := [
      ["metadata", "annotations"], ["metadata", "creationTimestamp"], ["metadata", "ownerReferences"],
      ["metadata", "generation"], ["metadata", "managedFields"], ["metadata", "namespace"],
      ["metadata", "resourceVersion"], ["metadata", "uid"], ["status"]],
    "KubeadmControlPlane" := [
      ["metadata", "annotations"], ["metadata", "creationTimestamp"], ["metadata", "ownerReferences"],
      ["metadata", "finalizers"], ["metadata", "generation"], ["metadata", "managedFields"],
      ["metadata", "namespace"], ["metadata", "resourceVersion"], ["metadata", "uid"],
      ["spec", "machineTemplate", "infrastructureRef", "namespace"], ["status"]],
    "MachineDeployment" := [
      ["metadata", "annotations", "kubectl.kubernetes.io/last-applied-configuration"],
      ["metadata", "annotations", "machinedeployment.clusters.x-k8s.io/revision"],
      ["metadata", "creationTimestamp"], ["metadata", "ownerReferences"], ["metadata", "generation"],
      ["metadata", "managedFields"], ["metadata", "namespace"], ["metadata", "resourceVersion"],
      ["metadata", "uid"], ["status"]],
    "KubeadmConfigTemplate" := [
      ["metadata", "annotations"], ["metadata", "creationTimestamp"], ["metadata", "ownerReferences"],
      ["metadata", "generation"], ["metadata", "managedFields"], ["metadata", "namespace"],
      ["metadata", "resourceVersion"], ["metadata", "uid"]]
  ]

  /** getNamespaceFieldsToBeUpdated: the fields set to the target namespace,
      per kind. */
  const NamespaceKinds: map<string, seq<Path>> := map[
    "Cluster" := [
      ["metadata", "namespace"], ["spec", "controlPlaneRef", "namespace"], ["spec", "infrastructureRef", "namespace"]],
    "KubeadmControlPlane" := [["spec", "machineTemplate", "infrastructureRef", "namespace"]],
    "Machine" := [["spec", "bootstrap", "configRef", "namespace"], ["spec", "infrastructureRef", "namespace"]]
  ]

  predicate NonEmptyPaths(paths: seq<Path>)
  {
    forall i | 0 <= i < |paths| :: |paths[i]| >= 1
  }

  predicate PairwiseDisjoint(paths: seq<Path>)
  {
    forall i, j | 0 <= i < j < |paths| :: Disjoint(paths[i], paths[j])
  }

  /** Every template path names at least one field. */
  lemma TemplatePaths(kind: string)
    requires kind in TemplateKinds
    ensures NonEmptyPaths(TemplateKinds[kind])
  {
  }

  /** Every namespace path names at least one field, and the paths of a kind
      are pairwise disjoint, so setting one never disturbs another. */
  lemma NamespacePaths(kind: string)
    requires kind in NamespaceKinds
    ensures NonEmptyPaths(NamespaceKinds[kind]) && PairwiseDisjoint(NamespaceKinds[kind])
  {
    var paths := NamespaceKinds[kind];
    if kind == "Cluster" {
      assert paths[0][0] != paths[1][0] && paths[0][0] != paths[2][0] && paths[1][1] != paths[2][1];
    } else if kind == "Machine" {
      assert paths[0][1] != paths[1][1];
    }
  }

  // ---------------------------------------------------------------------
  // The mutators.

  /** NestedFieldNoCopy's error, or SetNestedField's. */
  datatype MutateError = LookupFailed(at: Path) | SetFailed(at: Path)

  /** The object after a mutator and the error it returned, if any; after an
      error the changes made so far stay. */
  datatype Mutated = Mutated(err: Option<MutateError>, obj: Obj)

  /** The template mutator's loop from the given path on: each path found is
      removed, a lookup error stops the loop. */
  function RemoveListed(obj: Obj, paths: seq<Path>): Mutated
    requires NonEmptyPaths(paths)
  {
    if |paths| == 0 then Mutated(None, obj)
    else
      var r := Get(obj, paths[0]);
      if r.NotAMap? then Mutated(Some(LookupFailed(r.at)), obj)
      else if r.Found? then RemoveListed(Remove(obj, paths[0]), paths[1..])
      else RemoveListed(obj, paths[1..])
  }

  /** The namespace mutator's loop from the given path on: each path found is
      set to v, an error stops the loop. */
  function SetListed(obj: Obj, paths: seq<Path>, v: Value): Mutated
    requires NonEmptyPaths(paths)
  {
    if |paths| == 0 then Mutated(None, obj)
    else
      var r := Get(obj, paths[0]);
      if r.NotAMap? then Mutated(Some(LookupFailed(r.at)), obj)
      else if r.Found? then
        var s := Set(obj, paths[0], v);
        if s.None? then Mutated(Some(SetFailed(paths[0])), obj)
        else SetListed(s.value, paths[1..], v)
      else SetListed(obj, paths[1..], v)
  }

  /** The template mutator on a non-nil object. */
  function TemplateMutation(obj: Obj): Mutated
  {
    var kind := StringAt(obj, KindPath);
    if kind in TemplateKinds then
      TemplatePaths(kind);
      RemoveListed(obj, TemplateKinds[kind])
    else Mutated(None, obj)
  }

  /** The namespace mutator on a non-nil object: a non-empty namespace is
      replaced first, then the kind's paths that exist are set. */
  function NamespaceMutation(target: string, obj: Obj): Mutated
  {
    var renamed := if StringAt(obj, NamespacePath) != "" then WithNamespace(obj, target) else obj;
    var kind := StringAt(renamed, KindPath);
    if kind in NamespaceKinds then
      NamespacePaths(kind);
      SetListed(renamed, NamespaceKinds[kind], Str(target))
    else Mutated(None, renamed)
  }

  /** The template mutator's loop over the kind's fields: each one found is
      removed, and a lookup error is returned at once. */
  method RemoveFields(u: Unstructured, fields: seq<Path>) returns (err: Option<MutateError>)
    requires u.content.Some? && NonEmptyPaths(fields)
    modifies u
    ensures var m := RemoveListed(old(u.content).value, fields);
      u.content == Some(m.obj) && err == m.err
  {
    ghost var goal := RemoveListed(u.content.value, fields);
    var i := 0;
    while i < |fields|
      invariant 0 <= i <= |fields|
      invariant u.content.Some? && RemoveListed(u.content.value, fields[i..]) == goal
    {
      assert fields[i..][1..] == fields[i + 1..];
      var r := Get(u.content.value, fields[i]);
      if r.NotAMap? {
        return Some(LookupFailed(r.at));
      }
      if r.Found? {
        u.content := Some(Remove(u.content.value, fields[i]));
      }
      i := i + 1;
    }
    return None;
  }

  /** The namespace mutator's loop over the kind's fields: each one found is
      set to the target, and an error is returned at once. */
  method SetFields(u: Unstructured, fields: seq<Path>, target: string) returns (err: Option<MutateError>)
    requires u.content.Some? && NonEmptyPaths(fields)
    modifies u
    ensures var m := SetListed(old(u.content).value, fields, Str(target));
      u.content == Some(m.obj) && err == m.err
  {
    ghost var goal := SetListed(u.content.value, fields, Str(target));
    var i := 0;
    while i < |fields|
      invariant 0 <= i <= |fields|
      invariant u.content.Some? && SetListed(u.content.value, fields[i..], Str(target)) == goal
    {
      assert fields[i..][1..] == fields[i + 1..];
      var r := Get(u.content.value, fields[i]);
      if r.NotAMap? {
        return Some(LookupFailed(r.at));
      }
      if r.Found? {
        var s := Set(u.content.value, fields[i], Str(target));
        if s.None? {
          return Some(SetFailed(fields[i]));
        }
        u.content := s;
      }
      i := i + 1;
    }
    return None;
  }

  /** GetClusterTemplateMutator's function, applied to u. */
  method ApplyTemplateMutator(u: Unstructured?) returns (err: Option<MutateError>)
    modifies u
    ensures u == null || old(u.content).None? ==> err.None? && (u != null ==> u.content == old(u.content))
    ensures u != null && old(u.content).Some? ==>
      var m := TemplateMutation(old(u.content).value);
      u.content == Some(m.obj) && err == m.err
  {
    if u == null || u.content.None? {
      return None;
    }
    var kind := u.GetKind();
    if kind !in TemplateKinds {
      return None;
    }
    TemplatePaths(kind);
    err := RemoveFields(u, TemplateKinds[kind]);
  }

  /** getNamespaceMutator's function for the target namespace, applied to u. */
  method ApplyNamespaceMutator(target: string, u: Unstructured?) returns (err: Option<MutateError>)
    modifies u
    ensures u == null || old(u.content).None? ==> err.None? && (u != null ==> u.content == old(u.content))
    ensures u != null && old(u.content).Some? ==>
      var m := NamespaceMutation(target, old(u.content).value);
      u.content == Some(m.obj) && err == m.err
  {
    if u == null || u.content.None? {
      return None;
    }
    if u.GetNamespace() != "" {
      u.SetNamespace(target);
    }
    var kind := u.GetKind();
    if kind !in NamespaceKinds {
      return None;
    }
    NamespacePaths(kind);
    err := SetFields(u, NamespaceKinds[kind], target);
  }

  // ---------------------------------------------------------------------
  // What the mutators achieve.

  /** Without an error, none of the listed paths is found afterwards. */
  lemma {:induction false} RemoveListedClears(obj: Obj, paths: seq<Path>, k: nat)
    requires NonEmptyPaths(paths) && k < |paths|
    requires RemoveListed(obj, paths).err.None?
    ensures !Get(RemoveListed(obj, paths).obj, paths[k]).Found?
    decreases |paths|
  {
    var r := Get(obj, paths[0]);
    var next := if r.Found? then Remove(obj, paths[0]) else obj;
    if k == 0 {
      if r.Found? {
        RemoveClears(obj, paths[0]);
      }
      RemoveListedAddsNothing(next, paths[1..], paths[0]);
    } else {
      RemoveListedClears(next, paths[1..], k - 1);
    }
  }

  /** The template loop finds nothing that was not found before it. */
  lemma {:induction false} RemoveListedAddsNothing(obj: Obj, paths: seq<Path>, p: Path)
    requires NonEmptyPaths(paths)
    ensures Get(RemoveListed(obj, paths).obj, p).Found? ==> Get(obj, p).Found?
    decreases |paths|
  {
    if |paths| > 0 && !Get(obj, paths[0]).NotAMap? {
      if Get(obj, paths[0]).Found? {
        RemoveListedAddsNothing(Remove(obj, paths[0]), paths[1..], p);
        if Get(Remove(obj, paths[0]), p).Found? {
          RemoveAddsNothing(obj, paths[0], p);
        }
      } else {
        RemoveListedAddsNothing(obj, paths[1..], p);
      }
    }
  }

  /** The template loop keeps every path disjoint from all listed ones,
      whether or not it stops with an error. */
  lemma {:induction false} RemoveListedKeeps(obj: Obj, paths: seq<Path>, p: Path)
    requires NonEmptyPaths(paths)
    requires forall i | 0 <= i < |paths| :: Disjoint(p, paths[i])
    ensures Get(RemoveListed(obj, paths).obj, p) == Get(obj, p)
    decreases |paths|
  {
    if |paths| > 0 && !Get(obj, paths[0]).NotAMap? {
      if Get(obj, paths[0]).Found? {
        RemoveKeeps(obj, paths[0], p);
        RemoveListedKeeps(Remove(obj, paths[0]), paths[1..], p);
      } else {
        RemoveListedKeeps(obj, paths[1..], p);
      }
    }
  }

  /** A lookup error names a path leading into one of the listed paths. */
  lemma {:induction false} RemoveListedError(obj: Obj, paths: seq<Path>)
    requires NonEmptyPaths(paths)
    requires RemoveListed(obj, paths).err.Some?
    ensures RemoveListed(obj, paths).err.value.LookupFailed?
    ensures exists i | 0 <= i < |paths| :: IsPrefix(RemoveListed(obj, paths).err.value.at, paths[i])
    decreases |paths|
  {
    var r := Get(obj, paths[0]);
    if r.NotAMap? {
      assert IsPrefix(r.at, paths[0]);
    } else {
      var next := if r.Found? then Remove(obj, paths[0]) else obj;
      RemoveListedError(next, paths[1..]);
      var i :| 0 <= i < |paths[1..]| && IsPrefix(RemoveListed(next, paths[1..]).err.value.at, paths[1..][i]);
      assert paths[1..][i] == paths[i + 1];
    }
  }

  /** The template mutator: objects of other kinds are left alone; for a
      listed kind, without an error none of its paths is found afterwards,
      and every path disjoint from all of them keeps its value. */
  lemma TemplateMutationSpec(obj: Obj, p: Path)
    ensures StringAt(obj, KindPath) !in TemplateKinds ==> TemplateMutation(obj) == Mutated(None, obj)
    ensures var kind := StringAt(obj, KindPath);
      kind in TemplateKinds && TemplateMutation(obj).err.None? ==>
        forall i | 0 <= i < |TemplateKinds[kind]| :: !Get(TemplateMutation(obj).obj, TemplateKinds[kind][i]).Found?
    ensures var kind := StringAt(obj, KindPath);
      kind in TemplateKinds && (forall i | 0 <= i < |TemplateKinds[kind]| :: Disjoint(p, TemplateKinds[kind][i])) ==>
        Get(TemplateMutation(obj).obj, p) == Get(obj, p)
  {
    var kind := StringAt(obj, KindPath);
    if kind in TemplateKinds {
      TemplatePaths(kind);
      var paths := TemplateKinds[kind];
      if RemoveListed(obj, paths).err.None? {
        forall i | 0 <= i < |paths|
          ensures !Get(TemplateMutation(obj).obj, paths[i]).Found?
        {
          RemoveListedClears(obj, paths, i);
        }
      }
      if forall i | 0 <= i < |paths| :: Disjoint(p, paths[i]) {
        RemoveListedKeeps(obj, paths, p);
      }
    }
  }

  /** The namespace loop over pairwise disjoint paths: never a SetNestedField
      error, and without a lookup error each listed path that was found
      holds v and every other listed path is as it was. */
  lemma {:induction false} SetListedSets(obj: Obj, paths: seq<Path>, v: Value, k: nat)
    requires NonEmptyPaths(paths) && PairwiseDisjoint(paths) && k < |paths|
    requires SetListed(obj, paths, v).err.None?
    ensures Get(SetListed(obj, paths, v).obj, paths[k]) ==
      if Get(obj, paths[k]).Found? then Found(v) else Get(obj, paths[k])
    decreases |paths|
  {
    var r := Get(obj, paths[0]);
    if r.Found? {
      SetFound(obj, paths[0], v);
    }
    var next := if r.Found? then Set(obj, paths[0], v).value else obj;
    forall i | 0 <= i < |paths[1..]|
      ensures Disjoint(paths[0], paths[1..][i])
    {
      assert Disjoint(paths[0], paths[i + 1]);
    }
    if k == 0 {
      SetListedKeeps(next, paths[1..], v, paths[0]);
    } else {
      assert paths[1..][k - 1] == paths[k];
      if r.Found? {
        assert Disjoint(paths[k], paths[0]);
        SetKeeps(obj, paths[0], v, paths[k]);
      }
      SetListedSets(next, paths[1..], v, k - 1);
    }
  }

  /** The namespace loop keeps every path disjoint from all listed ones. */
  lemma {:induction false} SetListedKeeps(obj: Obj, paths: seq<Path>, v: Value, p: Path)
    requires NonEmptyPaths(paths)
    requires forall i | 0 <= i < |paths| :: Disjoint(p, paths[i])
    ensures Get(SetListed(obj, paths, v).obj, p) == Get(obj, p)
    decreases |paths|
  {
    if |paths| > 0 && !Get(obj, paths[0]).NotAMap? {
      if Get(obj, paths[0]).Found? {
        SetKeeps(obj, paths[0], v, p);
        SetListedKeeps(Set(obj, paths[0], v).value, paths[1..], v, p);
      } else {
        SetListedKeeps(obj, paths[1..], v, p);
      }
    }
  }

  /** The namespace mutator on an object with a namespace: afterwards, unless
      a lookup failed, metadata.namespace holds the target, or is gone when
      the target is empty. */
  lemma NamespaceMutationRenames(target: string, obj: Obj)
    requires StringAt(obj, NamespacePath) != ""
    requires NamespaceMutation(target, obj).err.None?
    ensures target != "" ==> StringAt(NamespaceMutation(target, obj).obj, NamespacePath) == target
    ensures target == "" ==> !Get(NamespaceMutation(target, obj).obj, NamespacePath).Found?
  {
    var renamed := WithNamespace(obj, target);
    if target != "" {
      SetNamespaceReads(obj, target);
    } else {
      ClearNamespace(obj);
    }
    var kind := StringAt(renamed, KindPath);
    if kind in NamespaceKinds {
      NamespacePaths(kind);
      var paths := NamespaceKinds[kind];
      if kind == "Cluster" {
        assert paths[0] == NamespacePath;
        SetListedSets(renamed, paths, Str(target), 0);
      } else {
        forall i | 0 <= i < |paths|
          ensures Disjoint(NamespacePath, paths[i])
        {
          assert paths[i][0] == "spec";
        }
        SetListedKeeps(renamed, paths, Str(target), NamespacePath);
      }
    }
  }

  /** The namespace mutator sets exactly the paths of the object's kind that
      exist once the namespace is replaced, and keeps every path disjoint
      from all of them. */
  lemma NamespaceMutationSpec(target: string, obj: Obj, k: nat, p: Path)
    ensures var renamed := if StringAt(obj, NamespacePath) != "" then WithNamespace(obj, target) else obj;
      var kind := StringAt(renamed, KindPath);
      kind in NamespaceKinds && k < |NamespaceKinds[kind]| && NamespaceMutation(target, obj).err.None? ==>
        Get(NamespaceMutation(target, obj).obj, NamespaceKinds[kind][k]) ==
          if Get(renamed, NamespaceKinds[kind][k]).Found? then Found(Str(target))
          else Get(renamed, NamespaceKinds[kind][k])
    ensures var renamed := if StringAt(obj, NamespacePath) != "" then WithNamespace(obj, target) else obj;
      var kind := StringAt(renamed, KindPath);
      kind in NamespaceKinds && (forall i | 0 <= i < |NamespaceKinds[kind]| :: Disjoint(p, NamespaceKinds[kind][i])) ==>
        Get(NamespaceMutation(target, obj).obj, p) == Get(renamed, p)
    ensures StringAt(obj, NamespacePath) == "" && StringAt(obj, KindPath) !in NamespaceKinds ==>
      NamespaceMutation(target, obj) == Mutated(None, obj)
  {
    var renamed := if StringAt(obj, NamespacePath) != "" then WithNamespace(obj, target) else obj;
    var kind := StringAt(renamed, KindPath);
    if kind in NamespaceKinds {
      NamespacePaths(kind);
      var paths := NamespaceKinds[kind];
      if k < |paths| && SetListed(renamed, paths, Str(target)).err.None? {
        SetListedSets(renamed, paths, Str(target), k);
      }
      if forall i | 0 <= i < |paths| :: Disjoint(p, paths[i]) {
        SetListedKeeps(renamed, paths, Str(target), p);
      }
    }
  }
}
