// Model of test/infrastructure/docker/docker/util.go: the mapping between
// machine and container names, the zero-or-one rule of the single-result
// lookups, GetNetwork, and the matcher for kubeadm's "node already exists"
// error. The docker daemon is not modelled: what it lists is a parameter.
module DockerUtil {

  import opened Wrappers
  import opened Strings
  import IpAddr
  import Container

  // ---------------------------------------------------------------------
  // Container names.

  /** machineContainerName: the machine name, prefixed with the cluster name
      and a dash unless it already starts with the cluster name. */
  function MachineContainerName(cluster: string, machine: string): string
  {
    if HasPrefix(machine, cluster) then machine else cluster + "-" + machine
  }

  /** machineFromContainerName: the cluster prefix and then one dash are
      dropped, each when present. */
  function MachineFromContainerName(cluster: string, containerName: string): string
  {
    TrimPrefix(TrimPrefix(containerName, cluster), "-")
  }

  /** Every container name starts with the cluster name, and a machine name
      that does not is recovered from its container name. */
  lemma ContainerNameRoundTrip(cluster: string, machine: string)
    ensures HasPrefix(MachineContainerName(cluster, machine), cluster)
    ensures !HasPrefix(machine, cluster) ==>
      MachineFromContainerName(cluster, MachineContainerName(cluster, machine)) == machine
  {
    var c := cluster + "-" + machine;
    assert c[..|cluster|] == cluster;
    if !HasPrefix(machine, cluster) {
      assert c[|cluster|..] == "-" + machine;
      assert ("-" + machine)[..1] == "-";
      assert ("-" + machine)[1..] == machine;
    }
  }

  /** A machine name that already starts with the cluster name is used as
      the container name, so the way back drops the prefix: in cluster "c",
      machine "c-1" comes back as "1". */
  lemma PrefixedMachineNotRecovered()
    ensures MachineContainerName("c", "c-1") == "c-1"
    ensures MachineFromContainerName("c", "c-1") == "1"
  {
    assert HasPrefix("c-1", "c");
    assert TrimPrefix("c-1", "c") == "-1";
    assert TrimPrefix("-1", "-") == "1";
  }

  // ---------------------------------------------------------------------
  // Single-result lookups.

  const ListError := "failed to list containers"

  /** getContainer and getNetwork on what the daemon listed: an error is
      wrapped, no result is nil, one result is returned, more is an error. */
  function GetOne<T>(listed: Result<seq<T>>): Result<Option<T>>
  {
    if listed.Err? then Err(ListError + ": " + listed.message)
    else if |listed.value| == 0 then Ok(None)
    else if |listed.value| == 1 then Ok(Some(listed.value[0]))
    else Err("expected 0 or 1 container, got " + IpAddr.DecimalText(|listed.value|))
  }

  /** At most one result: none gives nil, exactly one gives that one, and
      more than one is refused. */
  lemma GetOneCardinality<T>(listed: Result<seq<T>>)
    ensures GetOne(listed) == Ok(None) <==> listed == Ok([])
    ensures forall x :: GetOne(listed) == Ok(Some(x)) <==> listed == Ok([x])
    ensures GetOne(listed).Err? <==> listed.Err? || |listed.value| >= 2
  {
    if listed.Ok? && |listed.value| == 1 {
      assert listed.value == [listed.value[0]];
    }
  }

  // ---------------------------------------------------------------------
  // GetNetwork.

  const NameFilter := "name"

  /** The outcome of GetNetwork: a network, an error, or an index out of
      range. */
  datatype NetworkOutcome<T> = Network(network: T) | Failed(message: string) | Panicked

  /** GetNetwork as written: the first network listed, with no check that
      there is one. */
  function FirstNetwork<T>(listed: Result<seq<T>>): NetworkOutcome<T>
  {
    if listed.Err? then Failed(listed.message)
    else if |listed.value| == 0 then Panicked
    else Network(listed.value[0])
  }

  /** GetNetwork as evidently intended: no network listed is an error
      rather than a panic. */
  function FirstNetworkChecked<T>(listed: Result<seq<T>>): NetworkOutcome<T>
  {
    if listed.Err? then Failed(listed.message)
    else if |listed.value| == 0 then Failed("network not found")
    else Network(listed.value[0])
  }

  /** GetNetwork: a filter on the network name, then the first network the
      daemon lists for it. */
  method GetNetwork<T>(name: string, listNetwork: Container.Filters -> Result<seq<T>>) returns (r: NetworkOutcome<T>)
    ensures r == FirstNetwork(listNetwork(map[NameFilter := map[name := [""]]]))
  {
    var filters := new Container.FilterBuilder();
    filters.AddKeyValue(NameFilter, name);
    Container.SingleKeyValue(NameFilter, name);
    var listed := listNetwork(filters.filters);
    if listed.Err? {
      return Failed(listed.message);
    }
    if |listed.value| == 0 {
      return Panicked;
    }
    return Network(listed.value[0]);
  }

  /** When the daemon lists no network with the name, GetNetwork panics. */
  lemma GetNetworkPanicsOnEmpty<T>(listed: Result<seq<T>>)
    ensures FirstNetwork(listed) == Panicked <==> listed == Ok([])
  {
  }

  /** The checked lookup never panics, and agrees with GetNetwork whenever
      GetNetwork does not panic. */
  lemma FirstNetworkCheckedSafe<T>(listed: Result<seq<T>>)
    ensures FirstNetworkChecked(listed) != Panicked
    ensures FirstNetwork(listed) != Panicked ==> FirstNetworkChecked(listed) == FirstNetwork(listed)
    ensures FirstNetworkChecked(listed).Network? <==> listed.Ok? && |listed.value| > 0
  {
  }

  // ---------------------------------------------------------------------
  // nodeAlreadyExists.
  //
  // The expression is the kubeadm message with the node name as [^"]*; its
  // "cluster." has an unescaped '.', which matches any character but a
  // newline.

  const NodeHead := "Node with name \""
  const NodeTail := "\"" + " and status \"Ready\" already exists in the cluster"
  const NodeRest := " You must delete the existing Node or change the name of this new joining Node"

  /** The expression matches s from i, with the node name ending at j. */
  ghost predicate MatchAt(s: string, i: nat, j: nat)
  {
    i + |NodeHead| <= j && j + |NodeTail| + 1 + |NodeRest| <= |s| &&
    s[i..i + |NodeHead|] == NodeHead && '"' !in s[i + |NodeHead|..j] &&
    s[j..j + |NodeTail|] == NodeTail && s[j + |NodeTail|] != '\n' &&
    s[j + |NodeTail| + 1..j + |NodeTail| + 1 + |NodeRest|] == NodeRest
  }

  /** The expression finds a match somewhere in s. */
  ghost predicate Finds(s: string)
  {
    exists i: nat, j: nat :: MatchAt(s, i, j)
  }

  /** A match from i: the name can only end at the first '"' after the head. */
  predicate MatchFrom(s: string, i: nat)
  {
    OccursAt(s, NodeHead, i) &&
    var j := FindFrom(s, '"', i + |NodeHead|);
    j + |NodeTail| + 1 + |NodeRest| <= |s| &&
    s[j..j + |NodeTail|] == NodeTail && s[j + |NodeTail|] != '\n' &&
    s[j + |NodeTail| + 1..j + |NodeTail| + 1 + |NodeRest|] == NodeRest
  }

  /** Some match starts at i or later. */
  function MatchesFrom(s: string, i: nat): bool
    decreases |s| - i
  {
    if i > |s| then false else MatchFrom(s, i) || MatchesFrom(s, i + 1)
  }

  /** nodeAlreadyExists: FindString finds a non-empty match, so the test is
      whether there is a match at all. */
  function NodeAlreadyExists(stderr: string): bool
  {
    MatchesFrom(stderr, 0)
  }

  lemma MatchFromGivesMatchAt(s: string, i: nat)
    requires MatchFrom(s, i)
    ensures MatchAt(s, i, FindFrom(s, '"', i + |NodeHead|))
  {
    FindFromFirst(s, '"', i + |NodeHead|);
  }

  lemma TailStartsWithQuote()
    ensures |NodeTail| > 0 && NodeTail[0] == '"'
  {
  }

  /** The name of a match ends at the first '"' after the head. */
  lemma MatchAtEndsAtQuote(s: string, i: nat, j: nat)
    requires MatchAt(s, i, j)
    ensures j == FindFrom(s, '"', i + |NodeHead|)
  {
    var k := FindFrom(s, '"', i + |NodeHead|);
    FindFromFirst(s, '"', i + |NodeHead|);
    TailStartsWithQuote();
    assert s[j..j + |NodeTail|][0] == '"';
  }

  lemma MatchFromIsMatchAt(s: string, i: nat)
    ensures MatchFrom(s, i) <==> exists j: nat :: MatchAt(s, i, j)
  {
    if MatchFrom(s, i) {
      MatchFromGivesMatchAt(s, i);
    }
    if exists j: nat :: MatchAt(s, i, j) {
      var j: nat :| MatchAt(s, i, j);
      MatchAtEndsAtQuote(s, i, j);
    }
  }

  lemma MatchAtBounded(s: string)
    ensures forall i: nat, j: nat :: MatchAt(s, i, j) ==> i <= |s|
  {
  }

  lemma {:induction false} MatchesFromIsFinds(s: string, i: nat)
    ensures MatchesFrom(s, i) <==> exists i': nat, j: nat | i <= i' :: MatchAt(s, i', j)
    decreases |s| - i
  {
    hide MatchFrom, MatchAt;
    MatchAtBounded(s);
    MatchFromIsMatchAt(s, i);
    if i <= |s| {
      MatchesFromIsFinds(s, i + 1);
      if exists i': nat, j: nat | i <= i' :: MatchAt(s, i', j) {
        var i': nat, j: nat :| i <= i' && MatchAt(s, i', j);
        if i' > i {
          assert i + 1 <= i';
        }
      }
    }
  }

  /** nodeAlreadyExists is true exactly when the expression matches. */
  lemma NodeAlreadyExistsIsRegex(stderr: string)
    ensures NodeAlreadyExists(stderr) <==> Finds(stderr)
  {
    MatchesFromIsFinds(stderr, 0);
  }

  /** kubeadm's message for any node name without a '"', anywhere in the
      output, is recognised. */
  lemma RecognisesMessage(before: string, name: string, after: string)
    requires '"' !in name
    ensures NodeAlreadyExists(before + NodeHead + name + NodeTail + "." + NodeRest + after)
  {
    var s := before + NodeHead + name + NodeTail + "." + NodeRest + after;
    var i := |before|;
    var j := i + |NodeHead| + |name|;
    assert s[i..i + |NodeHead|] == NodeHead;
    assert s[i + |NodeHead|..j] == name;
    assert s[j..j + |NodeTail|] == NodeTail;
    assert s[j + |NodeTail|] == '.';
    assert s[j + |NodeTail| + 1..j + |NodeTail| + 1 + |NodeRest|] == NodeRest;
    assert MatchAt(s, i, j);
    NodeAlreadyExistsIsRegex(s);
  }

  /** The unescaped '.' lets any character but a newline stand for the
      full stop. */
  lemma AnyCharForFullStop(name: string, c: char)
    requires '"' !in name && c != '\n'
    ensures NodeAlreadyExists(NodeHead + name + NodeTail + [c] + NodeRest)
  {
    var s := NodeHead + name + NodeTail + [c] + NodeRest;
    var j := |NodeHead| + |name|;
    assert s[0..|NodeHead|] == NodeHead;
    assert s[|NodeHead|..j] == name;
    assert s[j..j + |NodeTail|] == NodeTail;
    assert s[j + |NodeTail| + 1..j + |NodeTail| + 1 + |NodeRest|] == NodeRest;
    assert MatchAt(s, 0, j);
    NodeAlreadyExistsIsRegex(s);
  }

  /** Text shorter than the message never matches. */
  lemma ShortTextNeverMatches(stderr: string)
    requires |stderr| < |NodeHead| + |NodeTail| + 1 + |NodeRest|
    ensures !NodeAlreadyExists(stderr)
  {
    NodeAlreadyExistsIsRegex(stderr);
  }

  lemma UnrelatedTextNotRecognised()
    ensures !NodeAlreadyExists("should not match string")
  {
    ShortTextNeverMatches("should not match string");
  }
}
