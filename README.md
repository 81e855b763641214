# Cluster API helpers, modelled in Dafny

This project models nine pieces of a Cluster API fork and proves properties of
each:

- **IPAM allocator** of the docker test provider. It hands out IPv4 addresses
  to docker machines. Claims are kept in one ConfigMap per namespace. The
  search for a fresh address counts up from the network's CIDR. Addresses of
  machines that are gone are marked AVAILABLE and reused. (`ipaddr.dfy` holds
  the parts of Go's `net` package it relies on; `ipam.dfy` holds the
  allocator.)
- **Retry**, which runs a callback a fixed number of times (`retry.dfy`).
- **Kubeadm v1beta4 conversion** to and from the CABPK v1beta1 hub types. It
  covers the extra-argument list/map conversion and the timeouts that moved
  between configuration types (`conversion.dfy`).
- **ProviderID** parsing of a node's `<provider>://.../<id>` string
  (`providerid.dfy`).
- **clusterctl move**: the choice of operation, and the template and namespace
  mutators applied to every object moved. The unstructured-object operations
  they use are in `unstructured.dfy`; move itself is `move.dfy`.
- **CLC rendering helpers** of the Ignition bootstrap format: mount point
  names, YAML indentation, the template data, and the strictness rules of the
  transpiler stages (`clc.dfy`).
- **Docker utilities**: container names, the zero-or-one lookup rule,
  GetNetwork, and the matcher for kubeadm's "node already exists" error
  (`dockerutil.dfy`).
- **Docker FilterBuilder** (`container.dfy`).
- **envtest webhook renaming** (`webhooks.dfy`).

Pure code is modelled as functions with lemmas. Code that changes state is
modelled imperatively, each part as a method proved against a specification
function:

- the allocator's ConfigMaps and CIDR cache are fields of the class
  `Ipam.Allocator`;
- the FilterBuilder map is a field of a class;
- the object content the mutators change is a field of
  `Unstructured.Unstructured`;
- the byte-wise increment of claimNextIP runs on an array.

`wrappers.dfy` (Option, Result) and `strings.dfy` (the `strings` package
functions the code calls) are shared helpers.

## Model

The Convert_* helpers of the kubeadm conversion (the ToHub and FromHub
functions of each type: ControlPlaneComponent, APIServer, LocalEtcd, Etcd,
ClusterConfiguration, NodeRegistrationOptions, Discovery, FileDiscovery,
InitConfiguration) carry no contract of their own: the round-trip rows below
state what they do, each citing the conversion lines of the types it covers.

| member | source | states |
|---|---|---|
| Retry.Retry | test/infrastructure/docker/utils/retry_util.go:7-14 | The callback runs exactly `count` times, and not at all for `count <= 0`, even after a success. The result is the last call's error, nil when nothing ran. A sleep follows each failing call and only those. |
| Retry.Failures | test/infrastructure/docker/utils/retry_util.go:8-11 | The calls followed by a sleep: exactly the failing ones, in call order. |
| Retry.LastCallDecides | test/infrastructure/docker/utils/retry_util.go:8-13 | After earlier successes, a failing last call is still the result, and the only call followed by a sleep. |
| IpAddr.IncrementMapped | test/infrastructure/docker/ipam/ipam_manager.go:155-160 | The byte-wise increment with carry, on the 16-byte form of an IPv4 address below 255.255.255.255: the result is still IPv4 and its value is one more. |
| IpAddr.IncrementMappedOverflow | test/infrastructure/docker/ipam/ipam_manager.go:155-161 | Incrementing 255.255.255.255 carries into the IPv6 prefix, so the result is no IPv4 address and no network contains it. |
| IpAddr.ParseFormat | test/infrastructure/docker/ipam/ipam_manager.go:150-164 | Printing an address with IP.String and parsing it with net.ParseIP gives the address back. |
| IpAddr.FormatParse | test/infrastructure/docker/ipam/ipam_manager.go:150-164 | The parser accepts only printed addresses: every text that parses is the printed form of its value. |
| IpAddr.SameNetworkIsInterval | test/infrastructure/docker/ipam/ipam_manager.go:161 | For a network whose host bits are clear, IPNet.Contains's prefix-bit comparison selects exactly an interval of address values. |
| IpAddr.ParseCIDR | test/infrastructure/docker/ipam/ipam_manager.go:151 | net.ParseCIDR gives a network with its host bits clear. |
| IpAddr.BaseInNet | test/infrastructure/docker/ipam/ipam_manager.go:167-168 | The address before the '/' of a valid CIDR, where incrementIPBy starts, parses and lies in the CIDR's network. |
| IpAddr.FormatSuffix | test/infrastructure/docker/ipam/ipam_manager.go:121-123 | A printed address ends in ".0" or ".1" exactly when its last byte is 0 or 1. |
| IpAddr.AddrValueInjective | test/infrastructure/docker/ipam/ipam_manager.go:132 | Two address texts with the same value are the same text, so comparing texts compares addresses. |
| Ipam.Increment | test/infrastructure/docker/ipam/ipam_manager.go:155-160 | The in-place loop over the byte array leaves the successor with carry of the old bytes. |
| Ipam.ReadCidr | test/infrastructure/docker/ipam/ipam_manager.go:150-168 | A CIDR read as incrementIPBy and claimNextIP read it: the text before the '/' and ParseCIDR's network. The text before the '/' lies in that network. |
| Ipam.StepIP | test/infrastructure/docker/ipam/ipam_manager.go:150-164 | claimNextIP with a last address, as the Go code computes it: parse, increment the array in place, test containment, print. The method equals the value-level step. |
| Ipam.StepMatchesNext | test/infrastructure/docker/ipam/ipam_manager.go:155-164 | The byte-wise increment stays in the network exactly when the value after the last address does, and then prints as that value. |
| Ipam.ClaimNextIP | test/infrastructure/docker/ipam/ipam_manager.go:141-165 | claimNextIP, including the detour through incrementIPBy(cidr, 520) for an empty last address. It equals the value-level ClaimNext. |
| Ipam.IncrementIPBy | test/infrastructure/docker/ipam/ipam_manager.go:167-177 | incrementIPBy's loop equals the value-level IncrementBy. For a count that is not positive, the text before the '/' comes back unchanged. |
| Ipam.StepsFromValue | test/infrastructure/docker/ipam/ipam_manager.go:167-177 | `count` steps from an address of value w reach w + count while the network holds it, else the overflow error. |
| Ipam.IncrementByValue | test/infrastructure/docker/ipam/ipam_manager.go:141-177 | incrementIPBy gives the CIDR's address plus count, or the overflow error past the end of the network, or the parse error for a bad CIDR. An empty address before the '/' never terminates (claimNextIP and incrementIPBy call each other). |
| Ipam.ClaimNextErrors | test/infrastructure/docker/ipam/ipam_manager.go:141-165 | The errors of claimNextIP that do not depend on the position: non-termination, the CIDR parse error, and a last address that is not IPv4 reported as an overflow. |
| Ipam.ClaimNextValue | test/infrastructure/docker/ipam/ipam_manager.go:141-165 | claimNextIP is the address after its start when the network holds it. Otherwise it is the overflow error with the last address. With no last claim, the first candidate is the CIDR's address plus 521. |
| Ipam.ClaimNextFresh | test/infrastructure/docker/ipam/ipam_manager.go:142-148 | With no last claim, claimNextIP runs 520 steps from the CIDR's address and then one more. |
| Ipam.ClaimNextAfter | test/infrastructure/docker/ipam/ipam_manager.go:150-164 | claimNextIP after an address of value w gives w + 1 when the network holds it, else the overflow error with the address unchanged. |
| Ipam.ClaimNextSucceeds | test/infrastructure/docker/ipam/ipam_manager.go:141-165 | A claimNextIP without error had a parsed CIDR and a known start, and gave the address after the start, inside the network. |
| Ipam.KeysAreNotAddresses | test/infrastructure/docker/ipam/ipam_manager.go:240-245 | The CIDR and last-claimed keys are not IPv4 addresses, so an address entry never overwrites them. |
| Ipam.IsIpAvailableInNetwork | test/infrastructure/docker/ipam/ipam_manager.go:128-139 | True exactly when the network was listed, has containers, and no container's address (without its prefix length) is the address. |
| Ipam.IsIpValid | test/infrastructure/docker/ipam/ipam_manager.go:121-126 | Not empty, not ending in ".0" or ".1", and available in the network. |
| Ipam.ValidLastByte | test/infrastructure/docker/ipam/ipam_manager.go:121-126 | An address that passes isIpValid never has 0 or 1 as its last byte. |
| Ipam.EmptyNetworkNothingValid | test/infrastructure/docker/ipam/ipam_manager.go:128-139 | On a network without containers, or one that could not be listed, no address is valid. |
| Ipam.ClaimNextValidIP | test/infrastructure/docker/ipam/ipam_manager.go:108-118 | The result is the first valid address of the network after the start. The position-independent errors (Diverged, CidrError, an unparseable start) are passed through. Once the start is known the only error is the overflow, and it means no address of the network after the start is valid. |
| Ipam.SearchStep | test/infrastructure/docker/ipam/ipam_manager.go:114-116 | A rejected address extends the range searched without a valid address by one. |
| Ipam.SearchedToEnd | test/infrastructure/docker/ipam/ipam_manager.go:110-111 | When the step after the searched range leaves the network, no address of the network after the start was valid. |
| Ipam.KeyWithValue | test/infrastructure/docker/ipam/ipam_manager.go:179-199 | isIpAlreadyClaimedForMachine and isAnyClaimedIpAvailable: found exactly when some key holds the value, and then a key that holds it. |
| Ipam.Allocator.FindIpFromClaimedIpPool | test/infrastructure/docker/ipam/ipam_manager.go:95-106 | The machine's own address first, else an AVAILABLE one, else not found with the last-claimed address. |
| Ipam.Allocator.GetCidrRange | test/infrastructure/docker/ipam/ipam_manager.go:84-93 | The cache is filled once, from the network's CIDR when the lookup succeeds, and then kept. The result is the cache. |
| Ipam.Allocator.CacheIpConfigData | test/infrastructure/docker/ipam/ipam_manager.go:264-288 | A missing ConfigMap is created with the data and the not-found error is returned. An existing one gets the data merged in. No other namespace changes. |
| Ipam.MergeIdempotent | test/infrastructure/docker/ipam/ipam_manager.go:73-79 | Merging the same data again changes nothing, so every retried write after the first is a no-op. |
| Ipam.Reclaimed | test/infrastructure/docker/ipam/ipam_manager.go:209-219 | The written entries are exactly the reclaimable ones: addresses, not the bookkeeping keys, whose holder is not a load balancer. Each keeps its holder or becomes AVAILABLE. |
| Ipam.ReclaimScan | test/infrastructure/docker/ipam/ipam_manager.go:209-219 | ipDiscovery's loop panics exactly when an address entry's value is shorter than three characters, and otherwise yields the reclaimed entries. |
| Ipam.ListedMachinesAreLive | test/infrastructure/docker/ipam/ipam_manager.go:209-213 | Every listed machine passes the liveness test, so discovery never frees its address. |
| Ipam.SuffixNameCountsAsLive | test/infrastructure/docker/ipam/ipam_manager.go:209-213 | The liveness test is a substring test: every name that ends some listed machine's name counts as live, listed or not ("m1" while only "xm1" exists). |
| Ipam.DiscoveryIdempotent | test/infrastructure/docker/ipam/ipam_manager.go:201-223 | Running discovery again with the same machines changes nothing more. |
| Ipam.ReclaimStable | test/infrastructure/docker/ipam/ipam_manager.go:209-219 | Discovery on its own output writes the same entries. |
| Ipam.Allocator.IpDiscovery | test/infrastructure/docker/ipam/ipam_manager.go:201-223 | Nothing changes for an empty ConfigMap or a panic, Panicked is reported exactly for a panic, and a failed machine listing is reported. Otherwise the reclaimed entries are merged into the namespace's ConfigMap and nothing else changes. |
| Ipam.Allocator.ChooseAddress | test/infrastructure/docker/ipam/ipam_manager.go:70-81 | For the answer the pool lookup gave (the machine's own address, else an AVAILABLE one, else the last claimed address, not found): a pool address the network does not use is returned without error, and the write holds the CIDR and the claim. Otherwise the result is claimNextValidIP's search after that answer, its error is the only error, and the write also records the fresh address as last claimed. |
| Ipam.ClaimedOutcome | test/infrastructure/docker/ipam/ipam_manager.go:70-81 | A claimed address is free in the network: a pool address held by the machine or AVAILABLE, or a valid fresh address recorded as last claimed (and fresh whenever the pool has neither). A fresh claim never overwrites the bookkeeping keys. |
| Ipam.OwnAddressReused | test/infrastructure/docker/ipam/ipam_manager.go:70-72 | An address the machine holds and the network does not use is returned without error, even when AVAILABLE addresses exist. |
| Ipam.AvailableAddressReused | test/infrastructure/docker/ipam/ipam_manager.go:70-72 | With no address of its own, the machine gets a free AVAILABLE address without error. |
| Ipam.SearchAfterLastClaimed | test/infrastructure/docker/ipam/ipam_manager.go:73-76 | With neither, the search for a fresh address starts after the LAST_CLAIMED_IP value (or from the CIDR when there is none). |
| Ipam.Allocator.ClaimIP | test/infrastructure/docker/ipam/ipam_manager.go:60-82 | Discovery, then the choice ChooseAddress states, made on the discovered data with the cached CIDR. The cache keeps a value it already had, and is otherwise filled from the listed network once discovery has not panicked. The namespace's data afterwards is the discovered data plus the claim's write, or only the discovered data on error. A panic in discovery returns Panicked with nothing changed. |
| UpstreamV1beta4.ConvertToArgs | bootstrap/kubeadm/types/upstreamv1beta4/conversion.go:184-199 | nil for a nil map. Otherwise one argument per entry, sorted by name then value, independent of the map's iteration order. |
| UpstreamV1beta4.SortArgs | bootstrap/kubeadm/types/upstreamv1beta4/conversion.go:192-197 | The sort keeps the length and the elements. |
| UpstreamV1beta4.SortArgsSorted | bootstrap/kubeadm/types/upstreamv1beta4/conversion.go:192-197 | Distinct arguments come out strictly ascending. |
| UpstreamV1beta4.SortedUnique | bootstrap/kubeadm/types/upstreamv1beta4/conversion.go:192-197 | Two sorted lists with the same elements are equal, so any sorting algorithm gives the same list. |
| UpstreamV1beta4.ArgLessTransitive | bootstrap/kubeadm/types/upstreamv1beta4/conversion.go:192-197 | The comparison used by the sort is a strict order. |
| UpstreamV1beta4.ConvertFromArgs | bootstrap/kubeadm/types/upstreamv1beta4/conversion.go:203-212 | nil for a nil list, otherwise the map of the list. |
| UpstreamV1beta4.ArgsMap | bootstrap/kubeadm/types/upstreamv1beta4/conversion.go:203-212 | The map's keys are exactly the names in the list. |
| UpstreamV1beta4.LaterWins | bootstrap/kubeadm/types/upstreamv1beta4/conversion.go:201-212 | A name maps to the value of its last occurrence. |
| UpstreamV1beta4.ArgsMapMember | bootstrap/kubeadm/types/upstreamv1beta4/conversion.go:203-212 | Every entry of the map is an argument of the list. |
| UpstreamV1beta4.ToArgsRoundTrip | bootstrap/kubeadm/types/upstreamv1beta4/conversion.go:184-212 | convertFromArgs(convertToArgs(m)) == m. |
| UpstreamV1beta4.FromArgsRoundTrip | bootstrap/kubeadm/types/upstreamv1beta4/conversion.go:184-212 | A sorted list with distinct names comes back unchanged. |
| UpstreamV1beta4.DuplicateNameLost | bootstrap/kubeadm/types/upstreamv1beta4/conversion.go:78-79 | Two values for one name lose the first: the information loss the source comments on. |
| UpstreamV1beta4.OptToArgsRoundTrip | bootstrap/kubeadm/types/upstreamv1beta4/conversion.go:184-212 | The map round trip holds for nil too. |
| UpstreamV1beta4.FromArgsCanonical | bootstrap/kubeadm/types/upstreamv1beta4/conversion.go:184-212 | Every list convertToArgs could have produced survives the list round trip, nil included. |
| UpstreamV1beta4.JoinToHub | bootstrap/kubeadm/types/upstreamv1beta4/conversion.go:107-119 | Timeouts.TLSBootstrap, when set, becomes Discovery.Timeout. Otherwise the target's Discovery.Timeout stays. |
| UpstreamV1beta4.JoinFromHub | bootstrap/kubeadm/types/upstreamv1beta4/conversion.go:157-168 | A set Discovery.Timeout becomes Timeouts.TLSBootstrap, allocating Timeouts when nil, and the other timeouts stay. Without one, Timeouts stays. |
| UpstreamV1beta4.ToClusterConfiguration | bootstrap/kubeadm/types/upstreamv1beta4/conversion.go:240-262 | An error exactly when the health-check timeout is set and the ClusterConfiguration is nil. Nothing changes without a timeout. Otherwise the timeout becomes APIServer.TimeoutForControlPlane. |
| UpstreamV1beta4.ComponentHubRoundTrip | bootstrap/kubeadm/types/upstreamv1beta4/conversion.go:73-81 | hub -> v1beta4 -> hub gives the ControlPlaneComponent back. (Also conversion.go:139-143.) |
| UpstreamV1beta4.ComponentSpokeRoundTrip | bootstrap/kubeadm/types/upstreamv1beta4/conversion.go:73-81 | v1beta4 -> hub -> v1beta4 gives the ControlPlaneComponent back when its arguments are in the form convertToArgs produces. (Also conversion.go:139-143.) |
| UpstreamV1beta4.ClusterHubRoundTrip | bootstrap/kubeadm/types/upstreamv1beta4/conversion.go:64-71 | hub -> v1beta4 -> hub ClusterConfiguration returns everything but TimeoutForControlPlane, which the target keeps. (Also conversion.go:145-149, conversion.go:386-449.) |
| UpstreamV1beta4.ClusterSpokeRoundTrip | bootstrap/kubeadm/types/upstreamv1beta4/conversion.go:64-91 | v1beta4 -> hub -> v1beta4 ClusterConfiguration, converting back into the original, returns everything when the argument lists are in the form convertToArgs produces, except the local etcd's ExtraEnvs: the LocalEtcd is freshly allocated. (Also conversion.go:151-155, conversion.go:386-449.) |
| UpstreamV1beta4.NodeRegistrationHubRoundTrip | bootstrap/kubeadm/types/upstreamv1beta4/conversion.go:121-129 | hub -> v1beta4 -> hub gives the NodeRegistrationOptions back. (Also conversion.go:170-174.) |
| UpstreamV1beta4.InitHubRoundTrip | bootstrap/kubeadm/types/upstreamv1beta4/conversion.go:99-105 | hub -> v1beta4 -> hub gives the InitConfiguration back. (Also conversion.go:651-683.) |
| UpstreamV1beta4.InitSpokeRoundTrip | bootstrap/kubeadm/types/upstreamv1beta4/conversion.go:99-105 | v1beta4 -> hub -> v1beta4, converting back into the original, gives the InitConfiguration back: its fields without a hub counterpart are kept by the target. (Also conversion.go:651-683.) |
| UpstreamV1beta4.JoinHubRoundTrip | bootstrap/kubeadm/types/upstreamv1beta4/conversion.go:107-119 | hub -> v1beta4 -> hub JoinConfiguration gives everything back except Discovery.File.KubeConfig, which is dropped. Discovery.Timeout survives through Timeouts.TLSBootstrap. (Also conversion.go:157-168, conversion.go:838-841.) |
| UpstreamV1beta4.KubeConfigLost | bootstrap/kubeadm/types/upstreamv1beta4/conversion.go:838-841 | A hub JoinConfiguration whose Discovery.File carries a KubeConfig never comes back equal to itself through v1beta4: only the path survives. (Also conversion.go:592-597.) |
| UpstreamV1beta4.JoinSpokeRoundTrip | bootstrap/kubeadm/types/upstreamv1beta4/conversion.go:107-119 | v1beta4 -> hub -> v1beta4 JoinConfiguration. TLSBootstrap survives; the control plane's CertificateKey is lost. (Also conversion.go:131-135, conversion.go:157-168.) |
| UpstreamV1beta4.InitClusterTimeoutRoundTrip | bootstrap/kubeadm/types/upstreamv1beta4/conversion.go:216-226 | TimeoutForControlPlane moves to the InitConfiguration's health-check timeout and back to the original ClusterConfiguration. (Also conversion.go:240-250.) |
| UpstreamV1beta4.JoinClusterTimeoutRoundTrip | bootstrap/kubeadm/types/upstreamv1beta4/conversion.go:228-238 | The same round trip through the JoinConfiguration; the JoinConfiguration comes back as in JoinHubRoundTrip, without Discovery.File.KubeConfig. (Also conversion.go:252-262.) |
| UpstreamV1beta4.InitFromClusterConfiguration | bootstrap/kubeadm/types/upstreamv1beta4/conversion.go:216-226 | A nil ClusterConfiguration or a nil TimeoutForControlPlane changes nothing. Otherwise Timeouts is allocated when nil, ControlPlaneComponentHealthCheck becomes the timeout, and every other field keeps its value. |
| UpstreamV1beta4.JoinFromClusterConfiguration | bootstrap/kubeadm/types/upstreamv1beta4/conversion.go:228-238 | The same for the JoinConfiguration. |
| ProviderId.MatchIsRegex | controllers/noderefutil/providerid.go:42-48 | The first-colon matcher decides exactly the language of `^[^:]+://.*[^/]$` under Go's regexp flags. |
| ProviderId.NewProviderID | controllers/noderefutil/providerid.go:56-89 | The empty-input error exactly for "", and the invalid error exactly for a non-match. Otherwise: the provider is the text before "://" and holds no ':'; the ID is the lower-cased input for azure, and the text after the last '/' otherwise; the result validates. |
| ProviderId.MatchedParts | controllers/noderefutil/providerid.go:61-86 | After a match the provider and the ID are non-empty, so the Validate check never fails. |
| ProviderId.RejectedExamples | controllers/noderefutil/providerid.go:42-48 | No "://", an empty provider, a final '/', and a newline inside the ID are refused. |
| ProviderId.ParsesAzure | controllers/noderefutil/providerid.go:70-72 | An azure ID is the whole input, lower-cased. |
| ProviderId.EqualsIsCaseSensitive | controllers/noderefutil/providerid.go:102-109 | Two azure inputs differing only in case have the same ID but are not Equal. |
| ProviderId.EqualsIffSameInput | controllers/noderefutil/providerid.go:102-120 | A sanity check rather than a property: Equals holds exactly for the same input, and IndexKey is the input. |
| Unstructured.LookupIn | cmd/clusterctl/client/move.go:293-297 | NestedFieldNoCopy's error names a non-empty prefix of the path. |
| Unstructured.RemoveClears | cmd/clusterctl/client/move.go:298-300 | After RemoveNestedField the path is not found. |
| Unstructured.RemoveKeeps | cmd/clusterctl/client/move.go:298-300 | RemoveNestedField keeps every path disjoint from the removed one. |
| Unstructured.RemoveAddsNothing | cmd/clusterctl/client/move.go:298-300 | RemoveNestedField finds nothing that was not found before. |
| Unstructured.SetFound | cmd/clusterctl/client/move.go:325-330 | SetNestedField on a found path succeeds, and the path then holds the value. |
| Unstructured.SetKeeps | cmd/clusterctl/client/move.go:325-330 | SetNestedField on a found path keeps every disjoint path. |
| Unstructured.Unstructured.SetNamespace | cmd/clusterctl/client/move.go:315-317 | A nil object stays nil for "". Otherwise the content becomes the object (an empty one for nil) with the namespace set, or removed for "". As in SetNestedField, a missing or null metadata is replaced by a new map, and a metadata that is neither a map nor null leaves the object unchanged. |
| Unstructured.SetNamespaceThroughNull | cmd/clusterctl/client/move.go:315-317 | Where metadata is missing or null, setting a non-empty namespace puts a new metadata map holding only the namespace in its place, and the namespace reads back. |
| Unstructured.SetNamespaceReads | cmd/clusterctl/client/move.go:315-317 | A non-empty namespace set on an object with a namespace reads back. |
| Unstructured.ClearNamespace | cmd/clusterctl/client/move.go:315-317 | Setting the namespace "" removes it. |
| Unstructured.SetNameReads | internal/envtest/webhooks.go:98-99 | SetName on an object with a name: the new name reads back and the kind is unchanged. |
| Move.MoveDispatch | cmd/clusterctl/client/move.go:66-119 | Move fails exactly when both directories are set, or when no target is given outside a dry run. Otherwise it picks ToPaletteCRD (with the template mutator), then ToDirectory, then FromDirectory, and the cluster move only when none is set. |
| Move.DryRunNeedsNoTarget | cmd/clusterctl/client/move.go:66-91 | A dry run without both directories never fails for want of a target kubeconfig. |
| Move.TemplatePaths | cmd/clusterctl/client/move.go:205-283 | A check of the table entry by entry rather than a property: every field path of the template mutator's table names at least one field. |
| Move.NamespacePaths | cmd/clusterctl/client/move.go:338-354 | Every namespace field path names at least one field, and the paths of a kind are pairwise disjoint. |
| Move.RemoveFields | cmd/clusterctl/client/move.go:292-301 | The loop leaves the content and the error the specification function gives. |
| Move.SetFields | cmd/clusterctl/client/move.go:320-332 | The loop leaves the content and the error the specification function gives. |
| Move.ApplyTemplateMutator | cmd/clusterctl/client/move.go:285-306 | A nil object or nil content changes nothing and gives no error. Otherwise the content and error are those of the template mutation. |
| Move.ApplyNamespaceMutator | cmd/clusterctl/client/move.go:308-336 | A nil object or nil content changes nothing and gives no error. Otherwise the content and error are those of the namespace mutation. |
| Move.RemoveListedClears | cmd/clusterctl/client/move.go:292-301 | Without an error, no listed path is found afterwards. |
| Move.RemoveListedAddsNothing | cmd/clusterctl/client/move.go:292-301 | The template loop finds nothing that was not there before. |
| Move.RemoveListedKeeps | cmd/clusterctl/client/move.go:292-301 | Every path disjoint from all listed ones keeps its value, whether or not the loop stops with an error. |
| Move.RemoveListedError | cmd/clusterctl/client/move.go:293-297 | A loop error is a lookup error at a path leading into one of the listed paths. |
| Move.TemplateMutationSpec | cmd/clusterctl/client/move.go:285-306 | Other kinds are untouched. For a listed kind without error, none of its paths is found afterwards and every disjoint path is unchanged. |
| Move.SetListedSets | cmd/clusterctl/client/move.go:320-332 | Over disjoint paths SetNestedField never fails. Each listed path that was found holds the target; the others are as they were. |
| Move.SetListedKeeps | cmd/clusterctl/client/move.go:320-332 | Every path disjoint from all listed ones keeps its value. |
| Move.NamespaceMutationRenames | cmd/clusterctl/client/move.go:315-317 | An object with a namespace gets the target namespace, or loses it for an empty target, unless a lookup fails. |
| Move.NamespaceMutationSpec | cmd/clusterctl/client/move.go:308-336 | Exactly the kind's paths that exist once the namespace is replaced are set to the target, and every disjoint path is kept. An object without namespace and of an unlisted kind is unchanged. |
| Clc.MountpointNameSpec | bootstrap/kubeadm/internal/ignition/clc/clc.go:259-261 | No '/' is left. The result is the name with '/' turned into '-', less its first character when that was '/' or '-'. |
| Clc.MountpointNameExample | bootstrap/kubeadm/internal/ignition/clc/clc_test.go:101-105 | The test's mount point "/var/lib/testdir" becomes the unit name "var-lib-testdir". |
| Clc.TemplateYAMLIndentInserts | bootstrap/kubeadm/internal/ignition/clc/clc.go:263-267 | templateYAMLIndent inserts i spaces after every newline and changes nothing else. |
| Clc.TemplateYAMLIndentZero | bootstrap/kubeadm/internal/ignition/clc/clc.go:263-267 | Indenting by zero spaces is the identity. |
| Clc.RenderCLC | bootstrap/kubeadm/internal/ignition/clc/clc.go:269-295 | A nil input is the "empty base user data" error. Otherwise the data holds the comma-joined password users and the label-to-device map. |
| Clc.PasswordUsersMembers | bootstrap/kubeadm/internal/ignition/clc/clc.go:276-281 | Exactly the users whose LockPassword is set to false are listed. |
| Clc.PasswordUsersAppend | bootstrap/kubeadm/internal/ignition/clc/clc.go:276-281 | The list keeps input order. |
| Clc.DevicesByLabelKeys | bootstrap/kubeadm/internal/ignition/clc/clc.go:283-288 | The map's keys are exactly the filesystem labels. |
| Clc.DevicesByLabelLastWins | bootstrap/kubeadm/internal/ignition/clc/clc.go:283-288 | Each label maps to the device of its last filesystem. |
| Clc.NoDiskNoDevices | bootstrap/kubeadm/internal/ignition/clc/clc.go:283-284 | Without a disk setup the map is empty. |
| Clc.ClcToIgnitionRule | bootstrap/kubeadm/internal/ignition/clc/clc.go:351-366 | Fails exactly when a stage reports something fatal, or anything at all in strict mode. A strict success has no warnings; a success keeps every entry of both stages. |
| Clc.WarningsFromAdditionalOnly | bootstrap/kubeadm/internal/ignition/clc/clc.go:323-349 | The warnings come only from the additional config, and there are none when it is empty. Failure is exactly a rejected generated config (strict) or a rejected additional one. |
| Clc.Render | bootstrap/kubeadm/internal/ignition/clc/clc.go:305-321 | A nil CLC config is refused first, then a nil input with the wrapped error. Otherwise the outcome of building the Ignition config, with its error wrapped. |
| DockerUtil.ContainerNameRoundTrip | test/infrastructure/docker/docker/util.go:36-46 | Every container name starts with the cluster name. A machine name that does not is recovered from its container name. |
| DockerUtil.PrefixedMachineNotRecovered | test/infrastructure/docker/docker/util.go:36-46 | In cluster "c", machine "c-1" is its own container name and comes back as "1". |
| DockerUtil.GetOneCardinality | test/infrastructure/docker/docker/util.go:57-96 | None listed gives nil, exactly one gives that one, and two or more, or a listing error, give an error. |
| DockerUtil.GetNetwork | test/infrastructure/docker/docker/util.go:98-107 | Filters on the network name with a FilterBuilder, then returns the first network listed, with no check that one was. |
| DockerUtil.GetNetworkPanicsOnEmpty | test/infrastructure/docker/docker/util.go:98-107 | GetNetwork panics exactly when the daemon lists no network. |
| DockerUtil.FirstNetworkCheckedSafe | test/infrastructure/docker/docker/util.go:98-107 | The checked lookup never panics and agrees with GetNetwork wherever GetNetwork does not panic. |
| DockerUtil.NodeAlreadyExistsIsRegex | test/infrastructure/docker/docker/util.go:180-184 | The matcher is true exactly when some substring matches the expression. |
| DockerUtil.RecognisesMessage | test/infrastructure/docker/docker/util_test.go:49-56 | kubeadm's message for any node name without '"' is recognised, whatever surrounds it. |
| DockerUtil.AnyCharForFullStop | test/infrastructure/docker/docker/util.go:181 | The unescaped '.' in the expression also matches a character other than a full stop. |
| DockerUtil.ShortTextNeverMatches | test/infrastructure/docker/docker/util.go:180-184 | A text shorter than the fixed part of the message never matches. |
| DockerUtil.UnrelatedTextNotRecognised | test/infrastructure/docker/docker/util_test.go:63-67 | The test's "should not match string" is not recognised. |
| Container.FilterBuilder.constructor | test/infrastructure/container/interface.go:107-108 | A new builder is empty. |
| Container.FilterBuilder.AddKeyNameValue | test/infrastructure/container/interface.go:115-121 | The filters after appending value under key and name. |
| Container.FilterBuilder.AddKeyValue | test/infrastructure/container/interface.go:110-113 | AddKeyNameValue with the value as name and "" as value. |
| Container.AddedAppends | test/infrastructure/container/interface.go:115-121 | The value goes at the end of the key and name's list, an empty list when missing. Every other key and name is unchanged. |
| Container.AddedNewKey | test/infrastructure/container/interface.go:117-119 | A new key gets an inner map holding only the name. |
| Container.AddedTwice | test/infrastructure/container/interface.go:115-121 | Adding is not idempotent: the same value added twice is listed twice. |
| Container.SingleKeyValue | test/infrastructure/container/interface.go:110-121 | A new builder after AddKeyValue(key, value) holds key -> value -> [""]. |
| Webhooks.AppendWebhookConfiguration | internal/envtest/webhooks.go:86-112 | Each output is its input list followed by the picked, renamed configurations of its kind and name. |
| Webhooks.PickedMembers | internal/envtest/webhooks.go:94-110 | The picked objects are exactly the objects of the kind and name, each renamed with the tag. |
| Webhooks.PickedAppend | internal/envtest/webhooks.go:94-110 | Input order is kept. |
| Webhooks.PickedRenamed | internal/envtest/webhooks.go:96-108 | Every picked object keeps its kind and carries the name followed by "-" and the tag. |

## Left out

- The Kubernetes API client and the docker daemon are not modelled. The
  ConfigMaps are a map field of `Ipam.Allocator`. What the daemon or the API
  server lists (containers, networks, DockerMachine names) is a parameter.
  Create, Update and Get do not fail, except for Get's not-found case.
- Ipam.Allocator.ClaimIP: takes one network listing for the whole call. The
  source asks the daemon again for every candidate address and takes the
  answer to stay the same. That listing is the checked lookup of the findings
  below (None when it fails or lists nothing), not the panicking one.
- Ipam.Allocator.ClaimIP: the mutex (ipamLatch) is not modelled, since calls
  are sequential here. The package-level CIDR cache is a field of the class.
- Ipam.Allocator.ClaimIP: the dead `return "", nil` after getCidrRange is
  left out, since getCidrRange never returns an error.
- Ipam.ClaimNextIP: when the last address is empty and so is the text before
  the CIDR's '/', claimNextIP and incrementIPBy call each other without end,
  so the goroutine's stack overflows and the process crashes. The model
  returns the error Diverged in place of that crash.
- Ipam.Allocator.ClaimIP: a value shorter than three characters in the
  ConfigMap makes ipDiscovery's slice panic. The model returns the error
  Panicked, with nothing changed.
- Ipam.IsIpValid: requires an address that is not one character long. On such
  a string the source's two-character slice panics, and its callers only pass
  printed addresses.
- Retry.Retry: sleeps are recorded (which calls, and the total time), not
  taken. The time.Duration is a natural number.
- Ipam.Allocator.ClaimIP: a write through Retry is modelled as one write. The
  other nine writes merge the same data again, which changes nothing
  (Ipam.MergeIdempotent).
- Ipam.KeyWithValue: which key is found when several hold the value depends
  on Go's map iteration order. The model promises only some such key.
- IPv6 text and the textual forms of net.ParseIP other than dotted-decimal
  IPv4 are not modelled. net.ParseIP and net.ParseCIDR accept IPv6 in the
  source, so an IPv6 CIDR or address there would be stepped through; here it
  parses to nil, which differs from the source.
- UpstreamV1beta4.SortArgs: sort.Slice is modelled as an insertion sort. The
  elements are distinct, so every sort gives the same list
  (UpstreamV1beta4.SortedUnique).
- The kubeadm v1beta4 and v1beta1 types are restricted to the fields the
  custom conversions read or write, plus a few copied ones. DNS, Proxy,
  FeatureGates, the other Timeouts fields and the generated DeepCopy code are
  not part of this model. The unsafe pointer casts of the generated code are
  plain copies.
- UpstreamV1beta4.ClusterSpokeRoundTrip: ExtraEnvs, which the hub does not
  have, is not carried through ControlPlaneComponent and LocalEtcd.
- Unstructured objects: JSON numbers are integers (no floating point), and a
  map stored in an object is a value, so the aliasing between maps of the Go
  objects is not modelled. The apimachinery unstructured package is not part
  of this model; its NestedFieldNoCopy, RemoveNestedField, SetNestedField,
  SetNamespace and SetName are modelled from their documented behaviour.
- Move.MoveDispatch: the operations Move hands over to (the object graph
  discovery, the move itself, reading and writing directories and the
  palette CRD file) are not modelled. The model stops at the choice of
  operation and its mutators.
- Move.RemoveFields: the "Failed to get field" and "Failed to set field"
  messages printed to standard output are not modelled, and neither is the
  "Applying palette namespace mutators" line that getPaletteMutators
  (Move.PaletteMutators) prints each time the namespace mutator is built.
- Clc.RenderCLC: the text/template execution and the template text are not
  modelled; neither is the "failed to render template" error. The model stops
  at the data passed to the template.
- Clc.ClcToIgnition: the Container Linux Config transpiler is a parameter:
  its parse and convert reports for each config. The report text,
  ignition.Append and the JSON marshalling of the final config are not
  modelled.
- Strings.ToLower: only ASCII letters are lower-cased. Go's strings.ToLower
  maps every Unicode letter.
- Webhooks.AppendWebhookConfiguration: the YAML parsing and the klog.Fatalf
  on a parse error are not modelled. The method takes the parsed objects.
- Container.FilterBuilder.AddKeyNameValue: the Go map is shared by reference
  among copies of the builder. Here it is one object's field.
- DockerUtil.GetNetwork: the log line printing the filters is not modelled.
- The docker container runtime's list() adds its own filters to the
  FilterBuilder it is given. That code is not part of this model.

## Findings

| source | as written | input that shows it | evidently intended | confidence | as-written member | corrected member |
|---|---|---|---|---|---|---|
| test/infrastructure/docker/docker/util.go:98-107 | GetNetwork returns `networks[0]` whenever ListNetwork does not fail, with no check that a network was listed | the daemon lists no network named "kind": the call panics with an index out of range | no such network is an error (or nil), as in getNetwork at util.go:82-96 | high, not executed | DockerUtil.GetNetworkPanicsOnEmpty | DockerUtil.FirstNetworkCheckedSafe |

