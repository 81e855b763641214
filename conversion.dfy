// The CABPK v1beta1 (hub) side of bootstrap/kubeadm/types/upstreamv1beta4/
// conversion.go: only the fields its conversions read or write. Types the
// conversions copy unchanged (by plain assignment or an unsafe cast of the
// same layout) are declared here once and shared by both versions.
module BootstrapV1beta1 {

  import opened Wrappers

  type Duration = int

  datatype APIEndpoint = APIEndpoint(advertiseAddress: string, bindPort: int)
  datatype HostPathMount = HostPathMount(name: string, hostPath: string, mountPath: string, readOnly: bool)
  datatype ImageMeta = ImageMeta(imageRepository: string, imageTag: string)
  datatype ExternalEtcd = ExternalEtcd(endpoints: seq<string>, caFile: string, certFile: string, keyFile: string)
  datatype Networking = Networking(serviceSubnet: string, podSubnet: string, dnsDomain: string)
  datatype Taint = Taint(key: string, value: string, effect: string)
  datatype BootstrapTokenDiscovery = BootstrapTokenDiscovery(token: string, apiServerEndpoint: string, caCertHashes: seq<string>, unsafeSkipCAVerification: bool)
  /** kubeConfig stands for the embedded kubeconfig (clusters, contexts,
      users), which v1beta4 has no field for; only its presence matters. */
  datatype FileDiscovery = FileDiscovery(kubeConfigPath: string, kubeConfig: Option<string>)
  datatype Patches = Patches(directory: string)
  datatype BootstrapToken = BootstrapToken(token: string, description: string, usages: seq<string>, groups: seq<string>)

  datatype ControlPlaneComponent = ControlPlaneComponent(
    extraArgs: Option<map<string, string>>,
    extraVolumes: seq<HostPathMount>)

  datatype APIServer = APIServer(
    component: ControlPlaneComponent,
    certSANs: seq<string>,
    timeoutForControlPlane: Option<Duration>)

  datatype LocalEtcd = LocalEtcd(
    imageMeta: ImageMeta,
    dataDir: string,
    extraArgs: Option<map<string, string>>,
    serverCertSANs: seq<string>,
    peerCertSANs: seq<string>)

  datatype Etcd = Etcd(local: Option<LocalEtcd>, external: Option<ExternalEtcd>)

  datatype ClusterConfiguration = ClusterConfiguration(
    etcd: Etcd,
    networking: Networking,
    kubernetesVersion: string,
    controlPlaneEndpoint: string,
    apiServer: APIServer,
    controllerManager: ControlPlaneComponent,
    scheduler: ControlPlaneComponent,
    certificatesDir: string,
    imageRepository: string,
    clusterName: string)

  datatype NodeRegistrationOptions = NodeRegistrationOptions(
    name: string,
    criSocket: string,
    taints: seq<Taint>,
    kubeletExtraArgs: Option<map<string, string>>,
    ignorePreflightErrors: seq<string>)

  datatype Discovery = Discovery(
    bootstrapToken: Option<BootstrapTokenDiscovery>,
    file: Option<FileDiscovery>,
    tlsBootstrapToken: string,
    timeout: Option<Duration>)

  datatype JoinControlPlane = JoinControlPlane(localAPIEndpoint: APIEndpoint)

  datatype InitConfiguration = InitConfiguration(
    bootstrapTokens: seq<BootstrapToken>,
    nodeRegistration: NodeRegistrationOptions,
    localAPIEndpoint: APIEndpoint,
    skipPhases: seq<string>,
    patches: Option<Patches>)

  datatype JoinConfiguration = JoinConfiguration(
    nodeRegistration: NodeRegistrationOptions,
    caCertPath: string,
    discovery: Discovery,
    controlPlane: Option<JoinControlPlane>,
    skipPhases: seq<string>,
    patches: Option<Patches>)
}

// Model of bootstrap/kubeadm/types/upstreamv1beta4/conversion.go: conversion
// between the kubeadm v1beta4 configuration types and the CABPK v1beta1 types
// (the hub). A Convert_* function writes the fields it knows into an `out`
// struct and leaves every other field of `out` as it was; here it takes `out`
// as a value and returns the struct after those writes. Only the fields the
// custom conversions touch, and a few plainly copied ones, are modelled.
module UpstreamV1beta4 {

  import opened Wrappers
  import opened Strings
  import Hub = BootstrapV1beta1

  // ---------------------------------------------------------------------
  // Extra arguments: a map in v1beta1, a list of name/value pairs in v1beta4.

  datatype Arg = Arg(name: string, value: string)

  type ArgMap = map<string, string>

  /** The order convertToArgs sorts by: by name, and by value for equal
      names. */
  predicate ArgLess(a: Arg, b: Arg)
  {
    if a.name == b.name then Less(a.value, b.value) else Less(a.name, b.name)
  }

  lemma ArgLessTotal(a: Arg, b: Arg)
    ensures a == b || ArgLess(a, b) || ArgLess(b, a)
  {
    LessTotal(a.name, b.name);
    LessTotal(a.value, b.value);
  }

  lemma ArgLessAsymmetric(a: Arg, b: Arg)
    requires ArgLess(a, b)
    ensures !ArgLess(b, a) && a != b
  {
    if a.name == b.name {
      LessAsymmetric(a.value, b.value);
    } else {
      LessAsymmetric(a.name, b.name);
    }
  }

  lemma ArgLessTransitive(a: Arg, b: Arg, c: Arg)
    requires ArgLess(a, b) && ArgLess(b, c)
    ensures ArgLess(a, c)
  {
    if a.name == b.name && b.name == c.name {
      LessTransitive(a.value, b.value, c.value);
    } else if a.name == b.name {
      assert Less(b.name, c.name);
    } else if b.name == c.name {
      assert Less(a.name, b.name);
    } else {
      LessTransitive(a.name, b.name, c.name);
      if a.name == c.name {
        LessAsymmetric(a.name, b.name);
      }
    }
  }

  /** Strictly ascending in the convertToArgs order. */
  predicate Sorted(args: seq<Arg>)
  {
    forall i, j | 0 <= i < j < |args| :: ArgLess(args[i], args[j])
  }

  /** `args` lists the entries of `m`, one per key, in the convertToArgs
      order. */
  ghost predicate Lists(m: ArgMap, args: seq<Arg>)
  {
    |args| == |m| && Sorted(args) &&
    forall a :: a in args <==> a.name in m && m[a.name] == a.value
  }

  /** One more arg at its place in a sorted list. */
  function Insert(a: Arg, args: seq<Arg>): (r: seq<Arg>)
    ensures |r| == |args| + 1
    ensures forall b :: b in r <==> b == a || b in args
  {
    if |args| == 0 || ArgLess(a, args[0]) then [a] + args
    else [args[0]] + Insert(a, args[1..])
  }

  lemma {:induction false} InsertSorted(a: Arg, args: seq<Arg>)
    requires Sorted(args) && a !in args
    ensures Sorted(Insert(a, args))
  {
    var r := Insert(a, args);
    if |args| == 0 || ArgLess(a, args[0]) {
      forall i, j | 0 <= i < j < |r|
        ensures ArgLess(r[i], r[j])
      {
        if i == 0 && j > 1 {
          ArgLessTransitive(a, args[0], args[j - 1]);
        }
      }
    } else {
      ArgLessTotal(a, args[0]);
      InsertSorted(a, args[1..]);
      var rest := Insert(a, args[1..]);
      assert r == [args[0]] + rest;
      forall i, j | 0 <= i < j < |r|
        ensures ArgLess(r[i], r[j])
      {
        if i == 0 {
          assert r[j] in rest;
          if r[j] != a {
            var k :| 1 <= k < |args| && args[k] == r[j];
          }
        } else {
          assert r[i] == rest[i - 1] && r[j] == rest[j - 1];
        }
      }
    }
  }

  /** sort.Slice with the convertToArgs comparison, as an insertion sort. The
      elements are distinct, so every sorting algorithm gives this result. */
  function SortArgs(args: seq<Arg>): (r: seq<Arg>)
    ensures |r| == |args|
    ensures forall b :: b in r <==> b in args
  {
    if |args| == 0 then [] else Insert(args[0], SortArgs(args[1..]))
  }

  lemma {:induction false} SortArgsSorted(args: seq<Arg>)
    requires forall i, j | 0 <= i < j < |args| :: args[i] != args[j]
    ensures Sorted(SortArgs(args))
  {
    if |args| > 0 {
      SortArgsSorted(args[1..]);
      assert args[0] !in args[1..];
      InsertSorted(args[0], SortArgs(args[1..]));
    }
  }

  /** Two sorted lists with the same elements are the same list. */
  lemma {:induction false} SortedUnique(a: seq<Arg>, b: seq<Arg>)
    requires Sorted(a) && Sorted(b)
    requires forall x :: x in a <==> x in b
    ensures a == b
    decreases |a|
  {
    if |a| > 0 {
      assert a[0] in a;
    }
    if |b| > 0 {
      assert b[0] in b;
    }
    if |a| > 0 && |b| > 0 {
      var j :| 0 <= j < |b| && b[j] == a[0];
      var i :| 0 <= i < |a| && a[i] == b[0];
      if i > 0 {
        ArgLessAsymmetric(a[0], a[i]);
      }
      assert a == [a[0]] + a[1..] && b == [b[0]] + b[1..];
      forall x
        ensures x in a[1..] <==> x in b[1..]
      {
        if x in a[1..] {
          var i :| 1 <= i < |a| && a[i] == x;
          ArgLessAsymmetric(a[0], a[i]);
          assert x in b && x != b[0];
        }
        if x in b[1..] {
          var i :| 1 <= i < |b| && b[i] == x;
          ArgLessAsymmetric(b[0], b[i]);
          assert x in a && x != a[0];
        }
      }
      SortedUnique(a[1..], b[1..]);
    }
  }

  /** Every map has a sorted listing. */
  lemma {:induction false} ListingExists(m: ArgMap)
    ensures exists args :: Lists(m, args)
    decreases |m|
  {
    if |m| == 0 {
      assert Lists(m, []);
    } else {
      var k :| k in m;
      var rest := m - {k};
      assert rest.Keys == m.Keys - {k};
      ListingExists(rest);
      var args :| Lists(rest, args);
      var a := Arg(k, m[k]);
      InsertSorted(a, args);
      assert Lists(m, Insert(a, args));
    }
  }

  /** The list convertToArgs returns for a non-nil map: one arg per entry,
      sorted; it does not depend on the map's iteration order. */
  ghost function ToArgs(m: ArgMap): (args: seq<Arg>)
    ensures Lists(m, args)
  {
    ListingExists(m);
    var args :| Lists(m, args);
    args
  }

  /** convertToArgs: nil for a nil map; otherwise the entries collected in
      the map's iteration order, then sorted. */
  method ConvertToArgs(m: Option<ArgMap>) returns (r: Option<seq<Arg>>)
    ensures r == if m.None? then None else Some(ToArgs(m.value))
  {
    if m.None? {
      return None;
    }
    var args: seq<Arg> := [];
    var keys := m.value.Keys;
    while keys != {}
      invariant keys <= m.value.Keys
      invariant |args| + |keys| == |m.value|
      invariant forall a :: a in args <==> a.name in m.value && a.name !in keys && m.value[a.name] == a.value
      invariant forall i, j | 0 <= i < j < |args| :: args[i].name != args[j].name
      decreases |keys|
    {
      var k :| k in keys;
      args := args + [Arg(k, m.value[k])];
      keys := keys - {k};
    }
    var sorted := SortArgs(args);
    SortArgsSorted(args);
    SortedUnique(sorted, ToArgs(m.value));
    return Some(sorted);
  }

  /** The map of an arg list: for a repeated name, the later value wins. */
  function ArgsMap(args: seq<Arg>): (m: ArgMap)
    ensures m.Keys == set a | a in args :: a.name
  {
    if |args| == 0 then map[]
    else
      var last := args[|args| - 1];
      var prior := args[..|args| - 1];
      assert forall a :: a in args <==> a in prior || a == last;
      ArgsMap(prior)[last.name := last.value]
  }

  /** convertFromArgs: nil for a nil list; otherwise the map of the list. */
  method ConvertFromArgs(args: Option<seq<Arg>>) returns (r: Option<ArgMap>)
    ensures r == if args.None? then None else Some(ArgsMap(args.value))
  {
    if args.None? {
      return None;
    }
    var m: ArgMap := map[];
    var i := 0;
    while i < |args.value|
      invariant 0 <= i <= |args.value|
      invariant m == ArgsMap(args.value[..i])
    {
      var arg := args.value[i];
      assert args.value[..i + 1][..i] == args.value[..i];
      m := m[arg.name := arg.value];
      i := i + 1;
    }
    assert args.value[..i] == args.value;
    return Some(m);
  }

  /** The value of a name in the map is the one of its last occurrence. */
  lemma {:induction false} LaterWins(args: seq<Arg>, i: nat)
    requires i < |args|
    requires forall j | i < j < |args| :: args[j].name != args[i].name
    ensures ArgsMap(args)[args[i].name] == args[i].value
    decreases |args|
  {
    if i < |args| - 1 {
      LaterWins(args[..|args| - 1], i);
    }
  }

  /** Every entry of the map of a list is an arg of the list. */
  lemma {:induction false} ArgsMapMember(args: seq<Arg>, k: string)
    requires k in ArgsMap(args)
    ensures Arg(k, ArgsMap(args)[k]) in args
    decreases |args|
  {
    var last := args[|args| - 1];
    var prior := args[..|args| - 1];
    assert args == prior + [last];
    if k != last.name {
      ArgsMapMember(prior, k);
    }
  }

  /** Round trip: converting the list of a map back gives the map. */
  lemma ArgsMapOfListing(m: ArgMap, args: seq<Arg>)
    requires forall a :: a in args <==> a.name in m && m[a.name] == a.value
    ensures ArgsMap(args) == m
  {
    var r := ArgsMap(args);
    forall k | k in m
      ensures k in r
    {
      assert Arg(k, m[k]) in args;
    }
    forall k | k in r
      ensures k in m && r[k] == m[k]
    {
      ArgsMapMember(args, k);
    }
  }

  lemma ToArgsRoundTrip(m: ArgMap)
    ensures ArgsMap(ToArgs(m)) == m
  {
    ArgsMapOfListing(m, ToArgs(m));
  }

  /** The other round trip: a sorted list with distinct names comes back
      unchanged. */
  lemma {:induction false} FromArgsRoundTrip(args: seq<Arg>)
    requires Sorted(args)
    requires forall i, j | 0 <= i < j < |args| :: args[i].name != args[j].name
    ensures ToArgs(ArgsMap(args)) == args
  {
    var m := ArgsMap(args);
    forall a
      ensures a in args <==> a.name in m && m[a.name] == a.value
    {
      if a in args {
        var i :| 0 <= i < |args| && args[i] == a;
        LaterWins(args, i);
      } else if a.name in m {
        var i :| 0 <= i < |args| && args[i].name == a.name;
        LaterWins(args, i);
      }
    }
    SortedUnique(ToArgs(m), args);
  }

  /** Two values for one name lose the first: the list does not come back. */
  lemma DuplicateNameLost(n: string, v1: string, v2: string)
    requires v1 != v2
    ensures ToArgs(ArgsMap([Arg(n, v1), Arg(n, v2)])) == [Arg(n, v2)]
  {
    var m := ArgsMap([Arg(n, v1), Arg(n, v2)]);
    assert m == map[n := v2];
    SortedUnique(ToArgs(m), [Arg(n, v2)]);
  }

  /** convertFromArgs on an optional list. */
  function FromArgs(args: Option<seq<Arg>>): Option<ArgMap>
  {
    if args.None? then None else Some(ArgsMap(args.value))
  }

  /** convertToArgs on an optional map. */
  ghost function OptToArgs(m: Option<ArgMap>): Option<seq<Arg>>
  {
    if m.None? then None else Some(ToArgs(m.value))
  }

  lemma OptToArgsRoundTrip(m: Option<ArgMap>)
    ensures FromArgs(OptToArgs(m)) == m
  {
    if m.Some? {
      ToArgsRoundTrip(m.value);
    }
  }

  /** A list convertToArgs could have produced: sorted, one arg per name. */
  predicate Canonical(args: Option<seq<Arg>>)
  {
    args.Some? ==>
      Sorted(args.value) &&
      forall i, j | 0 <= i < j < |args.value| :: args.value[i].name != args.value[j].name
  }

  lemma FromArgsCanonical(args: Option<seq<Arg>>)
    requires Canonical(args)
    ensures OptToArgs(FromArgs(args)) == args
  {
    if args.Some? {
      FromArgsRoundTrip(args.value);
    }
  }

  // ---------------------------------------------------------------------
  // The kubeadm v1beta4 types, restricted to the fields the conversions
  // read or write.

  type Duration = Hub.Duration

  datatype EnvVar = EnvVar(name: string, value: string)

  datatype ControlPlaneComponent = ControlPlaneComponent(
    extraArgs: Option<seq<Arg>>,
    extraVolumes: seq<Hub.HostPathMount>,
    extraEnvs: seq<EnvVar>)

  datatype APIServer = APIServer(component: ControlPlaneComponent, certSANs: seq<string>)

  datatype LocalEtcd = LocalEtcd(
    imageMeta: Hub.ImageMeta,
    dataDir: string,
    extraArgs: Option<seq<Arg>>,
    extraEnvs: seq<EnvVar>,
    serverCertSANs: seq<string>,
    peerCertSANs: seq<string>)

  datatype Etcd = Etcd(local: Option<LocalEtcd>, external: Option<Hub.ExternalEtcd>)

  datatype ClusterConfiguration = ClusterConfiguration(
    etcd: Etcd,
    networking: Hub.Networking,
    kubernetesVersion: string,
    controlPlaneEndpoint: string,
    apiServer: APIServer,
    controllerManager: ControlPlaneComponent,
    scheduler: ControlPlaneComponent,
    certificatesDir: string,
    imageRepository: string,
    clusterName: string,
    encryptionAlgorithm: string)

  datatype NodeRegistrationOptions = NodeRegistrationOptions(
    name: string,
    criSocket: string,
    taints: seq<Hub.Taint>,
    kubeletExtraArgs: Option<seq<Arg>>,
    ignorePreflightErrors: seq<string>,
    imagePullSerial: Option<bool>)

  datatype FileDiscovery = FileDiscovery(kubeConfigPath: string)

  datatype Discovery = Discovery(
    bootstrapToken: Option<Hub.BootstrapTokenDiscovery>,
    file: Option<FileDiscovery>,
    tlsBootstrapToken: string)

  datatype Timeouts = Timeouts(
    controlPlaneComponentHealthCheck: Option<Duration>,
    tlsBootstrap: Option<Duration>)

  /** `&Timeouts{}`. */
  const NoTimeouts := Timeouts(None, None)

  datatype JoinControlPlane = JoinControlPlane(localAPIEndpoint: Hub.APIEndpoint, certificateKey: string)

  /** The zero value `new` allocates. */
  const NewJoinControlPlane := JoinControlPlane(Hub.APIEndpoint("", 0), "")

  const NewLocalEtcd := LocalEtcd(Hub.ImageMeta("", ""), "", None, [], [], [])

  const NewHubLocalEtcd := Hub.LocalEtcd(Hub.ImageMeta("", ""), "", None, [], [])

  datatype InitConfiguration = InitConfiguration(
    bootstrapTokens: seq<Hub.BootstrapToken>,
    dryRun: bool,
    nodeRegistration: NodeRegistrationOptions,
    localAPIEndpoint: Hub.APIEndpoint,
    certificateKey: string,
    skipPhases: seq<string>,
    patches: Option<Hub.Patches>,
    timeouts: Option<Timeouts>)

  datatype JoinConfiguration = JoinConfiguration(
    dryRun: bool,
    nodeRegistration: NodeRegistrationOptions,
    caCertPath: string,
    discovery: Discovery,
    controlPlane: Option<JoinControlPlane>,
    skipPhases: seq<string>,
    patches: Option<Hub.Patches>,
    timeouts: Option<Timeouts>)

  // ---------------------------------------------------------------------
  // Each Convert_* below takes the struct it converts (`src`, the source's
  // `in`) and the struct it writes into (`dst`, the source's `*out`), and
  // returns `dst` after the writes: fields it does not write keep their
  // value. A nested pointer the source allocates with `new` starts from the
  // zero value.

  /** v1beta4 -> hub ControlPlaneComponent: ExtraEnvs is dropped. */
  function ComponentToHub(src: ControlPlaneComponent, dst: Hub.ControlPlaneComponent): Hub.ControlPlaneComponent
  {
    dst.(extraArgs := FromArgs(src.extraArgs), extraVolumes := src.extraVolumes)
  }

  ghost function ComponentFromHub(src: Hub.ControlPlaneComponent, dst: ControlPlaneComponent): ControlPlaneComponent
  {
    dst.(extraArgs := OptToArgs(src.extraArgs), extraVolumes := src.extraVolumes)
  }

  function APIServerToHub(src: APIServer, dst: Hub.APIServer): Hub.APIServer
  {
    dst.(component := ComponentToHub(src.component, dst.component), certSANs := src.certSANs)
  }

  /** TimeoutForControlPlane has no v1beta4 field here: it moves to the Init
      and Join configurations (see InitFromClusterConfiguration). */
  ghost function APIServerFromHub(src: Hub.APIServer, dst: APIServer): APIServer
  {
    dst.(component := ComponentFromHub(src.component, dst.component), certSANs := src.certSANs)
  }

  function LocalEtcdToHub(src: LocalEtcd, dst: Hub.LocalEtcd): Hub.LocalEtcd
  {
    dst.(imageMeta := src.imageMeta, dataDir := src.dataDir, extraArgs := FromArgs(src.extraArgs),
         serverCertSANs := src.serverCertSANs, peerCertSANs := src.peerCertSANs)
  }

  ghost function LocalEtcdFromHub(src: Hub.LocalEtcd, dst: LocalEtcd): LocalEtcd
  {
    dst.(imageMeta := src.imageMeta, dataDir := src.dataDir, extraArgs := OptToArgs(src.extraArgs),
         serverCertSANs := src.serverCertSANs, peerCertSANs := src.peerCertSANs)
  }

  function EtcdToHub(src: Etcd, dst: Hub.Etcd): Hub.Etcd
  {
    Hub.Etcd(
      if src.local.None? then None
      else Some(LocalEtcdToHub(src.local.value, NewHubLocalEtcd)),
      src.external)
  }

  ghost function EtcdFromHub(src: Hub.Etcd, dst: Etcd): Etcd
  {
    Etcd(
      if src.local.None? then None else Some(LocalEtcdFromHub(src.local.value, NewLocalEtcd)),
      src.external)
  }

  /** EncryptionAlgorithm has no hub field and is dropped. */
  function ClusterToHub(src: ClusterConfiguration, dst: Hub.ClusterConfiguration): Hub.ClusterConfiguration
  {
    dst.(etcd := EtcdToHub(src.etcd, dst.etcd),
         networking := src.networking,
         kubernetesVersion := src.kubernetesVersion,
         controlPlaneEndpoint := src.controlPlaneEndpoint,
         apiServer := APIServerToHub(src.apiServer, dst.apiServer),
         controllerManager := ComponentToHub(src.controllerManager, dst.controllerManager),
         scheduler := ComponentToHub(src.scheduler, dst.scheduler),
         certificatesDir := src.certificatesDir,
         imageRepository := src.imageRepository,
         clusterName := src.clusterName)
  }

  ghost function ClusterFromHub(src: Hub.ClusterConfiguration, dst: ClusterConfiguration): ClusterConfiguration
  {
    dst.(etcd := EtcdFromHub(src.etcd, dst.etcd),
         networking := src.networking,
         kubernetesVersion := src.kubernetesVersion,
         controlPlaneEndpoint := src.controlPlaneEndpoint,
         apiServer := APIServerFromHub(src.apiServer, dst.apiServer),
         controllerManager := ComponentFromHub(src.controllerManager, dst.controllerManager),
         scheduler := ComponentFromHub(src.scheduler, dst.scheduler),
         certificatesDir := src.certificatesDir,
         imageRepository := src.imageRepository,
         clusterName := src.clusterName)
  }

  /** ImagePullSerial has no hub field and is dropped. */
  function NodeRegistrationToHub(src: NodeRegistrationOptions, dst: Hub.NodeRegistrationOptions): Hub.NodeRegistrationOptions
  {
    dst.(name := src.name, criSocket := src.criSocket, taints := src.taints,
         kubeletExtraArgs := FromArgs(src.kubeletExtraArgs),
         ignorePreflightErrors := src.ignorePreflightErrors)
  }

  ghost function NodeRegistrationFromHub(src: Hub.NodeRegistrationOptions, dst: NodeRegistrationOptions): NodeRegistrationOptions
  {
    dst.(name := src.name, criSocket := src.criSocket, taints := src.taints,
         kubeletExtraArgs := OptToArgs(src.kubeletExtraArgs),
         ignorePreflightErrors := src.ignorePreflightErrors)
  }

  /** A freshly allocated hub FileDiscovery with only the path copied: the
      embedded kubeconfig stays nil. */
  function FileToHub(src: Option<FileDiscovery>): Option<Hub.FileDiscovery>
  {
    if src.None? then None else Some(Hub.FileDiscovery(src.value.kubeConfigPath, None))
  }

  /** A freshly allocated v1beta4 FileDiscovery with only the path copied:
      the hub's embedded kubeconfig is dropped. */
  function FileFromHub(src: Option<Hub.FileDiscovery>): Option<FileDiscovery>
  {
    if src.None? then None else Some(FileDiscovery(src.value.kubeConfigPath))
  }

  /** The hub's Discovery.Timeout is not written here. */
  function DiscoveryToHub(src: Discovery, dst: Hub.Discovery): Hub.Discovery
  {
    dst.(bootstrapToken := src.bootstrapToken, file := FileToHub(src.file), tlsBootstrapToken := src.tlsBootstrapToken)
  }

  function DiscoveryFromHub(src: Hub.Discovery, dst: Discovery): Discovery
  {
    dst.(bootstrapToken := src.bootstrapToken, file := FileFromHub(src.file), tlsBootstrapToken := src.tlsBootstrapToken)
  }

  /** What survives a FileDiscovery's trip through v1beta4: the path, with
      the embedded kubeconfig gone. */
  function WithoutKubeConfig(f: Option<Hub.FileDiscovery>): Option<Hub.FileDiscovery>
  {
    if f.None? then None else Some(f.value.(kubeConfig := None))
  }

  /** The hub JoinConfiguration after a trip through v1beta4. */
  function KubeConfigDropped(h: Hub.JoinConfiguration): Hub.JoinConfiguration
  {
    h.(discovery := h.discovery.(file := WithoutKubeConfig(h.discovery.file)))
  }

  /** DryRun, CertificateKey and Timeouts have no hub field. */
  function InitToHub(src: InitConfiguration, dst: Hub.InitConfiguration): Hub.InitConfiguration
  {
    dst.(bootstrapTokens := src.bootstrapTokens,
         nodeRegistration := NodeRegistrationToHub(src.nodeRegistration, dst.nodeRegistration),
         localAPIEndpoint := src.localAPIEndpoint,
         skipPhases := src.skipPhases,
         patches := src.patches)
  }

  ghost function InitFromHub(src: Hub.InitConfiguration, dst: InitConfiguration): InitConfiguration
  {
    dst.(bootstrapTokens := src.bootstrapTokens,
         nodeRegistration := NodeRegistrationFromHub(src.nodeRegistration, dst.nodeRegistration),
         localAPIEndpoint := src.localAPIEndpoint,
         skipPhases := src.skipPhases,
         patches := src.patches)
  }

  /** v1beta4 -> hub JoinConfiguration: the field copy, then
      Timeouts.TLSBootstrap moves to Discovery.Timeout when it is set. */
  function JoinToHub(src: JoinConfiguration, dst: Hub.JoinConfiguration): (r: Hub.JoinConfiguration)
    ensures r.discovery.timeout ==
      if src.timeouts.Some? && src.timeouts.value.tlsBootstrap.Some? then src.timeouts.value.tlsBootstrap
      else dst.discovery.timeout
  {
    var copied := dst.(
      nodeRegistration := NodeRegistrationToHub(src.nodeRegistration, dst.nodeRegistration),
      caCertPath := src.caCertPath,
      discovery := DiscoveryToHub(src.discovery, dst.discovery),
      controlPlane := if src.controlPlane.None? then None
                      else Some(Hub.JoinControlPlane(src.controlPlane.value.localAPIEndpoint)),
      skipPhases := src.skipPhases,
      patches := src.patches);
    if src.timeouts.Some? && src.timeouts.value.tlsBootstrap.Some? then
      copied.(discovery := copied.discovery.(timeout := src.timeouts.value.tlsBootstrap))
    else copied
  }

  /** hub -> v1beta4 JoinConfiguration: the field copy, then a set
      Discovery.Timeout moves to Timeouts.TLSBootstrap, allocating Timeouts
      when it is nil. */
  ghost function JoinFromHub(src: Hub.JoinConfiguration, dst: JoinConfiguration): (r: JoinConfiguration)
    ensures src.discovery.timeout.None? ==> r.timeouts == dst.timeouts
    ensures src.discovery.timeout.Some? ==>
      r.timeouts.Some? && r.timeouts.value.tlsBootstrap == src.discovery.timeout &&
      HealthCheck(r.timeouts) == HealthCheck(dst.timeouts)
  {
    var copied := dst.(
      nodeRegistration := NodeRegistrationFromHub(src.nodeRegistration, dst.nodeRegistration),
      caCertPath := src.caCertPath,
      discovery := DiscoveryFromHub(src.discovery, dst.discovery),
      controlPlane := if src.controlPlane.None? then None
                      else Some(NewJoinControlPlane.(localAPIEndpoint := src.controlPlane.value.localAPIEndpoint)),
      skipPhases := src.skipPhases,
      patches := src.patches);
    if src.discovery.timeout.Some? then
      var t := if copied.timeouts.None? then NoTimeouts else copied.timeouts.value;
      copied.(timeouts := Some(t.(tlsBootstrap := src.discovery.timeout)))
    else copied
  }

  /** (*Timeouts).ControlPlaneComponentHealthCheck := d, allocating the
      struct when it is nil. */
  function SetHealthCheck(t: Option<Timeouts>, d: Option<Duration>): Option<Timeouts>
  {
    Some((if t.None? then NoTimeouts else t.value).(controlPlaneComponentHealthCheck := d))
  }

  /** InitConfiguration.ConvertFromClusterConfiguration: TimeoutForControlPlane
      moves into Timeouts.ControlPlaneComponentHealthCheck. */
  function InitFromClusterConfiguration(dst: InitConfiguration, cc: Option<Hub.ClusterConfiguration>): (r: InitConfiguration)
    ensures cc.None? || cc.value.apiServer.timeoutForControlPlane.None? ==> r == dst
    ensures cc.Some? && cc.value.apiServer.timeoutForControlPlane.Some? ==>
      r.timeouts.Some? && r == dst.(timeouts := r.timeouts) &&
      r.timeouts.value.controlPlaneComponentHealthCheck == cc.value.apiServer.timeoutForControlPlane &&
      r.timeouts.value.tlsBootstrap == (if dst.timeouts.None? then None else dst.timeouts.value.tlsBootstrap)
  {
    if cc.None? || cc.value.apiServer.timeoutForControlPlane.None? then dst
    else dst.(timeouts := SetHealthCheck(dst.timeouts, cc.value.apiServer.timeoutForControlPlane))
  }

  /** JoinConfiguration.ConvertFromClusterConfiguration, the same move. */
  function JoinFromClusterConfiguration(dst: JoinConfiguration, cc: Option<Hub.ClusterConfiguration>): (r: JoinConfiguration)
    ensures cc.None? || cc.value.apiServer.timeoutForControlPlane.None? ==> r == dst
    ensures cc.Some? && cc.value.apiServer.timeoutForControlPlane.Some? ==>
      r.timeouts.Some? && r == dst.(timeouts := r.timeouts) &&
      r.timeouts.value.controlPlaneComponentHealthCheck == cc.value.apiServer.timeoutForControlPlane &&
      r.timeouts.value.tlsBootstrap == (if dst.timeouts.None? then None else dst.timeouts.value.tlsBootstrap)
  {
    if cc.None? || cc.value.apiServer.timeoutForControlPlane.None? then dst
    else dst.(timeouts := SetHealthCheck(dst.timeouts, cc.value.apiServer.timeoutForControlPlane))
  }

  const InitNilClusterError := "cannot convert InitConfiguration to a nil ClusterConfiguration"
  const JoinNilClusterError := "cannot convert JoinConfiguration to a nil ClusterConfiguration"

  /** The cluster configuration after a ConvertToClusterConfiguration, or the
      error it returns. */
  datatype Outcome = Done(cc: Option<Hub.ClusterConfiguration>) | Failed(message: string)

  function HealthCheck(t: Option<Timeouts>): Option<Duration>
  {
    if t.None? then None else t.value.controlPlaneComponentHealthCheck
  }

  function ToClusterConfiguration(t: Option<Timeouts>, cc: Option<Hub.ClusterConfiguration>, nilError: string): (r: Outcome)
    ensures r.Failed? <==> HealthCheck(t).Some? && cc.None?
    ensures r.Failed? ==> r.message == nilError
    ensures HealthCheck(t).None? ==> r == Done(cc)
    ensures HealthCheck(t).Some? && cc.Some? ==>
      r.Done? && r.cc.Some? &&
      r.cc.value.apiServer.timeoutForControlPlane == HealthCheck(t) &&
      r.cc.value.(apiServer := r.cc.value.apiServer.(timeoutForControlPlane := cc.value.apiServer.timeoutForControlPlane)) == cc.value
  {
    if HealthCheck(t).None? then Done(cc)
    else if cc.None? then Failed(nilError)
    else Done(Some(cc.value.(apiServer := cc.value.apiServer.(timeoutForControlPlane := HealthCheck(t)))))
  }

  /** InitConfiguration.ConvertToClusterConfiguration. */
  function InitToClusterConfiguration(src: InitConfiguration, cc: Option<Hub.ClusterConfiguration>): Outcome
  {
    ToClusterConfiguration(src.timeouts, cc, InitNilClusterError)
  }

  /** JoinConfiguration.ConvertToClusterConfiguration. */
  function JoinToClusterConfiguration(src: JoinConfiguration, cc: Option<Hub.ClusterConfiguration>): Outcome
  {
    ToClusterConfiguration(src.timeouts, cc, JoinNilClusterError)
  }

  // ---------------------------------------------------------------------
  // Round trips.

  lemma ComponentHubRoundTrip(h: Hub.ControlPlaneComponent, o: ControlPlaneComponent, o2: Hub.ControlPlaneComponent)
    ensures ComponentToHub(ComponentFromHub(h, o), o2) == h
  {
    OptToArgsRoundTrip(h.extraArgs);
  }

  lemma ComponentSpokeRoundTrip(c: ControlPlaneComponent, h0: Hub.ControlPlaneComponent)
    requires Canonical(c.extraArgs)
    ensures ComponentFromHub(ComponentToHub(c, h0), c) == c
  {
    FromArgsCanonical(c.extraArgs);
  }

  /** hub -> v1beta4 -> hub ClusterConfiguration gives back everything but
      TimeoutForControlPlane, which is not on the v1beta4 ClusterConfiguration:
      the target keeps its own. */
  lemma ClusterHubRoundTrip(h: Hub.ClusterConfiguration, o: ClusterConfiguration, o2: Hub.ClusterConfiguration)
    ensures ClusterToHub(ClusterFromHub(h, o), o2) ==
      h.(apiServer := h.apiServer.(timeoutForControlPlane := o2.apiServer.timeoutForControlPlane))
  {
    ComponentHubRoundTrip(h.apiServer.component, o.apiServer.component, o2.apiServer.component);
    ComponentHubRoundTrip(h.controllerManager, o.controllerManager, o2.controllerManager);
    ComponentHubRoundTrip(h.scheduler, o.scheduler, o2.scheduler);
    if h.etcd.local.Some? {
      OptToArgsRoundTrip(h.etcd.local.value.extraArgs);
    }
  }

  /** v1beta4 -> hub -> v1beta4 ClusterConfiguration, converting back into
      the original: everything returns when the arg lists are in the form
      convertToArgs produces, except the local etcd's ExtraEnvs, which the
      freshly allocated LocalEtcd does not have. */
  lemma ClusterSpokeRoundTrip(c: ClusterConfiguration, h0: Hub.ClusterConfiguration)
    requires Canonical(c.apiServer.component.extraArgs)
    requires Canonical(c.controllerManager.extraArgs) && Canonical(c.scheduler.extraArgs)
    requires c.etcd.local.Some? ==> Canonical(c.etcd.local.value.extraArgs)
    ensures ClusterFromHub(ClusterToHub(c, h0), c) ==
      c.(etcd := c.etcd.(local := if c.etcd.local.None? then None else Some(c.etcd.local.value.(extraEnvs := []))))
  {
    ComponentSpokeRoundTrip(c.apiServer.component, h0.apiServer.component);
    ComponentSpokeRoundTrip(c.controllerManager, h0.controllerManager);
    ComponentSpokeRoundTrip(c.scheduler, h0.scheduler);
    if c.etcd.local.Some? {
      FromArgsCanonical(c.etcd.local.value.extraArgs);
    }
  }

  lemma NodeRegistrationHubRoundTrip(h: Hub.NodeRegistrationOptions, o: NodeRegistrationOptions, o2: Hub.NodeRegistrationOptions)
    ensures NodeRegistrationToHub(NodeRegistrationFromHub(h, o), o2) == h
  {
    OptToArgsRoundTrip(h.kubeletExtraArgs);
  }

  lemma InitHubRoundTrip(h: Hub.InitConfiguration, o: InitConfiguration, o2: Hub.InitConfiguration)
    ensures InitToHub(InitFromHub(h, o), o2) == h
  {
    OptToArgsRoundTrip(h.nodeRegistration.kubeletExtraArgs);
  }

  lemma InitSpokeRoundTrip(i: InitConfiguration, h0: Hub.InitConfiguration)
    requires Canonical(i.nodeRegistration.kubeletExtraArgs)
    ensures InitFromHub(InitToHub(i, h0), i) == i
  {
    FromArgsCanonical(i.nodeRegistration.kubeletExtraArgs);
  }

  /** hub -> v1beta4 -> hub JoinConfiguration. Discovery.Timeout survives by
      way of Timeouts.TLSBootstrap; when it is nil the v1beta4 target must not
      carry a TLSBootstrap of its own, nor the hub target a Discovery.Timeout,
      for nil to come back. Discovery.File.KubeConfig does not come back. */
  lemma JoinHubRoundTrip(h: Hub.JoinConfiguration, o: JoinConfiguration, o2: Hub.JoinConfiguration)
    requires h.discovery.timeout.Some? ||
      ((o.timeouts.None? || o.timeouts.value.tlsBootstrap.None?) && o2.discovery.timeout.None?)
    ensures JoinToHub(JoinFromHub(h, o), o2) == KubeConfigDropped(h)
  {
    NodeRegistrationHubRoundTrip(h.nodeRegistration, o.nodeRegistration, o2.nodeRegistration);
    var r := JoinToHub(JoinFromHub(h, o), o2);
    assert r.discovery == KubeConfigDropped(h).discovery;
    assert r.controlPlane == h.controlPlane;
  }

  /** v1beta4 -> hub -> v1beta4 JoinConfiguration, converting back into the
      original: Timeouts.TLSBootstrap survives by way of Discovery.Timeout;
      the control plane's CertificateKey is lost because the JoinControlPlane
      is freshly allocated. */
  lemma JoinSpokeRoundTrip(j: JoinConfiguration, h0: Hub.JoinConfiguration)
    requires Canonical(j.nodeRegistration.kubeletExtraArgs)
    requires h0.discovery.timeout.None?
    ensures JoinFromHub(JoinToHub(j, h0), j) ==
      j.(controlPlane := if j.controlPlane.None? then None else Some(j.controlPlane.value.(certificateKey := "")))
  {
    FromArgsCanonical(j.nodeRegistration.kubeletExtraArgs);
    assert FileFromHub(FileToHub(j.discovery.file)) == j.discovery.file;
    assert JoinFromHub(JoinToHub(j, h0), j).discovery == j.discovery;
  }

  /** TimeoutForControlPlane crosses to v1beta4 on the InitConfiguration and
      back: the ClusterConfiguration, converted to v1beta4 and back into a
      hub object without a timeout, then given the Init configuration's
      health-check timeout, is the original. */
  lemma InitClusterTimeoutRoundTrip(
    hcc: Hub.ClusterConfiguration, hi: Hub.InitConfiguration,
    o: ClusterConfiguration, oi: InitConfiguration,
    o2: Hub.ClusterConfiguration, oi2: Hub.InitConfiguration)
    requires o2.apiServer.timeoutForControlPlane.None?
    requires hcc.apiServer.timeoutForControlPlane.Some? || HealthCheck(oi.timeouts).None?
    ensures
      var init := InitFromClusterConfiguration(InitFromHub(hi, oi), Some(hcc));
      InitToClusterConfiguration(init, Some(ClusterToHub(ClusterFromHub(hcc, o), o2))) == Done(Some(hcc)) &&
      InitToHub(init, oi2) == hi
  {
    ClusterHubRoundTrip(hcc, o, o2);
    InitHubRoundTrip(hi, oi, oi2);
  }

  lemma JoinClusterTimeoutRoundTrip(
    hcc: Hub.ClusterConfiguration, hj: Hub.JoinConfiguration,
    o: ClusterConfiguration, oj: JoinConfiguration,
    o2: Hub.ClusterConfiguration, oj2: Hub.JoinConfiguration)
    requires o2.apiServer.timeoutForControlPlane.None?
    requires hcc.apiServer.timeoutForControlPlane.Some? || HealthCheck(oj.timeouts).None?
    requires hj.discovery.timeout.Some? ||
      ((oj.timeouts.None? || oj.timeouts.value.tlsBootstrap.None?) && oj2.discovery.timeout.None?)
    ensures
      var join := JoinFromClusterConfiguration(JoinFromHub(hj, oj), Some(hcc));
      JoinToClusterConfiguration(join, Some(ClusterToHub(ClusterFromHub(hcc, o), o2))) == Done(Some(hcc)) &&
      JoinToHub(join, oj2) == KubeConfigDropped(hj)
  {
    ClusterHubRoundTrip(hcc, o, o2);
    var j := JoinFromHub(hj, oj);
    assert JoinToHub(JoinFromClusterConfiguration(j, Some(hcc)), oj2) == JoinToHub(j, oj2);
    JoinHubRoundTrip(hj, oj, oj2);
  }

  /** The embedded kubeconfig is lost on the way through v1beta4: a hub
      JoinConfiguration that carries one never comes back equal to itself,
      whatever the targets converted into. */
  lemma KubeConfigLost(h: Hub.JoinConfiguration, o: JoinConfiguration, o2: Hub.JoinConfiguration)
    requires h.discovery.file.Some? && h.discovery.file.value.kubeConfig.Some?
    ensures JoinToHub(JoinFromHub(h, o), o2) != h
    ensures JoinToHub(JoinFromHub(h, o), o2).discovery.file ==
      Some(Hub.FileDiscovery(h.discovery.file.value.kubeConfigPath, None))
  {
    var r := JoinToHub(JoinFromHub(h, o), o2);
    assert r.discovery.file == FileToHub(FileFromHub(h.discovery.file));
  }
}
