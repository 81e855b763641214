// Model of test/infrastructure/docker/ipam/ipam_manager.go: the IP address
// allocator of the docker infrastructure provider. Claimed addresses are kept
// per namespace in the data of the `ipam-config` ConfigMap: the docker
// network's CIDR under "CIDR", the last freshly claimed address under
// "LAST_CLAIMED_IP", and one entry per address mapping it to the name of the
// DockerMachine holding it, or to "AVAILABLE" once that machine is gone.
//
// The Kubernetes client, the docker network listing and the DockerMachine
// listing are inputs: `tables` stands for the ConfigMaps, a `Network` value
// for the result of docker.GetNetwork("kind") (None when it fails) and
// `machines` for the DockerMachine names in the namespace (None when the list
// call fails).
module Ipam {

  import opened Wrappers
  import opened Strings
  import opened IpAddr
  import Retry

  const CidrKey := "CIDR"
  const LastClaimedKey := "LAST_CLAIMED_IP"
  const Available := "AVAILABLE"

  /** The first fresh address of a namespace is the CIDR's address plus this
      plus one. */
  const InitialSkip := 520
  /** Writes of a claim are repeated this many times, two seconds apart. */
  const RetryCount := 10
  const RetryDelaySeconds := 2

  /** The data of one ipam-config ConfigMap. */
  type Table = map<string, string>

  datatype Error =
    | CidrError      // net.ParseCIDR rejected the CIDR
    | Overflowed     // "overflowed CIDR while incrementing IP"
    | Diverged       // claimNextIP and incrementIPBy recurse until the stack overflows
    | Panicked       // a slice expression out of range in ipDiscovery
    | ListError      // listing the DockerMachines failed
    | NotFound       // the ConfigMap did not exist (it has just been created)

  datatype Container = Container(name: string, ipv4: string)

  /** A docker network as listed by the container runtime. */
  datatype Network = Network(name: string, cidr: string, containers: seq<Container>)

  // ---------------------------------------------------------------------
  // Stepping through the network's addresses.

  /** The loop of claimNextIP: increment a byte string in place, carrying from
      the last byte towards the first. */
  method Increment(ip: array<Byte>)
    modifies ip
    ensures ip[..] == Succ(old(ip[..]))
  {
    var i := ip.Length - 1;
    assert ip[..i + 1] == ip[..] && ip[i + 1..] == [];
    while i >= 0
      invariant -1 <= i < ip.Length
      invariant ip[..i + 1] == old(ip[..])[..i + 1]
      invariant Succ(old(ip[..])) == Succ(ip[..i + 1]) + ip[i + 1..]
    {
      ghost var before := ip[..];
      SuccPrefix(before, i);
      ip[i] := if ip[i] == 255 then 0 else ip[i] + 1;
      if ip[i] != 0 {
        assert ip[..] == before[..i] + [before[i] + 1] + before[i + 1..];
        break;
      }
      assert ip[i..] == [0] + before[i + 1..];
      assert ip[..i] == before[..i];
      i := i - 1;
    }
  }

  /** A CIDR string as claimNextIP and incrementIPBy read it: the text before
      its first '/' (where incrementIPBy starts) and the network net.ParseCIDR
      makes of it (None when it fails). Parsing is a pure function of the
      text, so reading it once stands for parsing it on every call. */
  datatype Cidr = Cidr(base: string, net: Option<IPNet>)

  function ReadCidr(cidr: string): (c: Cidr)
    ensures c.base == Before(cidr, '/') && c.net == ParseCIDR(cidr)
    ensures Consistent(c)
  {
    if ParseCIDR(cidr).Some? then BaseInNet(cidr); Cidr(Before(cidr, '/'), ParseCIDR(cidr))
    else Cidr(Before(cidr, '/'), None)
  }

  /** What every parsed CIDR satisfies: the network has its host bits clear,
      and the text before the '/' is an address inside it. */
  ghost predicate Consistent(c: Cidr)
  {
    c.net.Some? ==>
      Aligned(c.net.value) && AddrValue(c.base).Some? && InNet(c.net.value, AddrValue(c.base).value)
  }

  /** The value after `lastIP` when it is an IPv4 address whose successor is
      still in the network. */
  function NextInNet(lastIP: string, n: IPNet): (r: Option<nat>)
    ensures r.Some? <==> AddrValue(lastIP).Some? && InNet(n, AddrValue(lastIP).value + 1)
    ensures r.Some? ==> r.value == AddrValue(lastIP).value + 1
  {
    match AddrValue(lastIP)
    case Some(v) => if InNet(n, v + 1) then Some(v + 1) else None
    case None => None
  }

  /** What claimNextIP computes for a non-empty lastIP, on values: the text
      of the address after lastIP when the network still holds it, else the
      overflow error (also after 255.255.255.255 and for text that is not an
      IPv4 address), and the parse error for a bad CIDR. On error lastIP
      itself comes back. */
  function Step(lastIP: string, c: Cidr): (r: (string, Option<Error>))
  {
    match c.net
    case None => (lastIP, Some(CidrError))
    case Some(n) =>
      match NextInNet(lastIP, n)
      case Some(v) => (Text(v), None)
      case None => (lastIP, Some(Overflowed))
  }

  /** claimNextIP for a non-empty lastIP as the Go code does it: parse both,
      increment the 16-byte form in place, test containment and print. */
  method StepIP(lastIP: string, cidr: string) returns (ip: string, err: Option<Error>)
    ensures (ip, err) == Step(lastIP, ReadCidr(cidr))
  {
    var network := ParseCIDR(cidr);
    if network.None? {
      return lastIP, Some(CidrError);
    }
    ip, err := Advance(lastIP, network.value);
  }

  /** The part of claimNextIP after a successful ParseCIDR. */
  method Advance(lastIP: string, n: IPNet) returns (ip: string, err: Option<Error>)
    requires Aligned(n)
    ensures NextInNet(lastIP, n).Some? ==> ip == Text(NextInNet(lastIP, n).value) && err == None
    ensures NextInNet(lastIP, n).None? ==> ip == lastIP && err == Some(Overflowed)
  {
    var bytes := ParseIP(lastIP);
    var buf := new Byte[|bytes|](k requires 0 <= k < |bytes| => bytes[k]);
    assert buf[..] == bytes;
    Increment(buf);
    StepMatchesNext(lastIP, n);
    if !NetContains(n, buf[..]) {
      return lastIP, Some(Overflowed);
    }
    ip, err := Format4(To4(buf[..]).value), None;
    AddrText(ip);
  }

  /** The byte-wise increment of the parsed address agrees with NextInNet. */
  lemma {:induction false} StepMatchesNext(lastIP: string, n: IPNet)
    requires Aligned(n)
    ensures NetContains(n, Succ(ParseIP(lastIP))) <==> NextInNet(lastIP, n).Some?
    ensures NetContains(n, Succ(ParseIP(lastIP))) ==>
              AddrValue(Format4(To4(Succ(ParseIP(lastIP))).value)) == NextInNet(lastIP, n)
  {
    var a := ParseIPv4(lastIP);
    if a.None? {
      assert ParseIP(lastIP) == [];
      assert Succ([]) == [];
    } else {
      assert ParseIP(lastIP) == V4InV6Prefix + a.value;
      StepMapped(a.value, n);
    }
  }

  /** Incrementing the 16-byte form of an IPv4 address a stays in the
      network exactly when the value after a does, and prints as that value. */
  lemma {:induction false} StepMapped(a: seq<Byte>, n: IPNet)
    requires |a| == 4 && Aligned(n)
    ensures NetContains(n, Succ(V4InV6Prefix + a)) <==> InNet(n, Value(a) + 1)
    ensures InNet(n, Value(a) + 1) ==>
              AddrValue(Format4(To4(Succ(V4InV6Prefix + a)).value)) == Some(Value(a) + 1)
  {
    var v := Value(a);
    var next := Succ(V4InV6Prefix + a);
    assert Pow256(4) == IPv4Space;
    if v + 1 < IPv4Space {
      IncrementMapped(a);
      ContainsIsInterval(n, next, Succ(a));
      ParseFormat(Succ(a));
    } else {
      IncrementMappedOverflow(a);
      assert !InNet(n, v + 1);
    }
  }

  // claimNextIP and incrementIPBy call each other: an empty last address
  // makes claimNextIP first advance 520 times from the CIDR's own address,
  // and every step of incrementIPBy is a call of claimNextIP.

  /** claimNextIP: the address after lastIP; an empty lastIP is first
      replaced by incrementIPBy(cidr, 520). */
  function ClaimNext(lastIP: string, c: Cidr): (string, Option<Error>)
    decreases if lastIP == "" then 2 else 0, 0
  {
    if lastIP == "" then
      var (s, e) := IncrementBy(c, InitialSkip);
      if e.Some? then ("", e) else Step(s, c)
    else Step(lastIP, c)
  }

  /** incrementIPBy: `count` steps from the address before the '/' of the
      CIDR; none for a count that is not positive. */
  function IncrementBy(c: Cidr, count: int): (string, Option<Error>)
    decreases 1, 0
  {
    StepsFrom(c.base, c, if count > 0 then count else 0)
  }

  /** The loop of incrementIPBy from lIp with `count` steps left. A step from
      an empty address would be claimNextIP(""), which runs incrementIPBy
      again with the same arguments: the recursion only stops when the stack
      overflows and the process crashes, and Diverged stands for that. */
  function StepsFrom(lIp: string, c: Cidr, count: nat): (string, Option<Error>)
    decreases 0, count + 1
  {
    if count == 0 then (lIp, None)
    else if lIp == "" then ("", Some(Diverged))
    else
      var (next, e) := ClaimNext(lIp, c);
      if e.Some? then ("", e) else StepsFrom(next, c, count - 1)
  }

  method ClaimNextIP(lastIP: string, cidr: string) returns (ip: string, err: Option<Error>)
    ensures (ip, err) == ClaimNext(lastIP, ReadCidr(cidr))
    decreases if lastIP == "" then 2 else 0, 0
  {
    var last := lastIP;
    if |last| == 0 {
      var s, e := IncrementIPBy(cidr, InitialSkip);
      if e.Some? {
        return "", e;
      }
      last := s;
    }
    ip, err := StepIP(last, cidr);
  }

  method IncrementIPBy(cidr: string, count: int) returns (ip: string, err: Option<Error>)
    ensures (ip, err) == IncrementBy(ReadCidr(cidr), count)
    decreases 1, 0
  {
    ghost var c := ReadCidr(cidr);
    var lIp := Before(cidr, '/');
    ghost var total: nat := if count > 0 then count else 0;
    var i := 0;
    while i < count
      invariant 0 <= i <= total
      invariant StepsFrom(lIp, c, total - i) == IncrementBy(c, count)
    {
      if lIp == "" {
        return "", Some(Diverged);
      }
      var next, e := ClaimNextIP(lIp, cidr);
      if e.Some? {
        return "", e;
      }
      lIp := next;
      i := i + 1;
    }
    return lIp, None;
  }

  /** One step from an address of value w: the text of w + 1 while the
      network holds it, else the overflow error with the address unchanged. */
  lemma {:induction false} StepNext(lIp: string, c: Cidr, w: nat)
    requires c.net.Some? && AddrValue(lIp) == Some(w)
    ensures Step(lIp, c) == if InNet(c.net.value, w + 1) then (Text(w + 1), None) else (lIp, Some(Overflowed))
  {
    var n := c.net.value;
    if InNet(n, w + 1) {
      assert NextInNet(lIp, n) == Some(w + 1);
    } else {
      assert NextInNet(lIp, n) == None;
    }
  }

  /** StepsFrom on values: `count` steps from the address of value w reach
      the address w + count when the network still holds it, and fail with
      the overflow error otherwise. */
  lemma {:induction false} StepsFromValue(c: Cidr, w: nat, count: nat)
    requires c.net.Some? && InNet(c.net.value, w)
    ensures StepsFrom(Text(w), c, count) ==
              if InNet(c.net.value, w + count) then (Text(w + count), None) else ("", Some(Overflowed))
    decreases count
  {
    hide Text;
    hide AddrValue;
    if count > 0 {
      hide StepsFrom;
      StepsFromNext(c, w, count);
      if InNet(c.net.value, w + 1) {
        StepsFromValue(c, w + 1, count - 1);
        assert w + 1 + (count - 1) == w + count;
      }
    }
  }

  /** One step of incrementIPBy from the address of value w. */
  lemma {:induction false} StepsFromNext(c: Cidr, w: nat, count: nat)
    requires c.net.Some? && w < IPv4Space && count > 0
    ensures InNet(c.net.value, w + 1) ==> StepsFrom(Text(w), c, count) == StepsFrom(Text(w + 1), c, count - 1)
    ensures !InNet(c.net.value, w + 1) ==> StepsFrom(Text(w), c, count) == ("", Some(Overflowed))
  {
    TextValue(w);
    AddrLength(Text(w));
    StepsFromOne(Text(w), c, count);
    StepNext(Text(w), c, w);
  }

  /** One step of incrementIPBy from a non-empty address. */
  lemma {:induction false} StepsFromOne(lIp: string, c: Cidr, count: nat)
    requires lIp != "" && count > 0
    ensures Step(lIp, c).1.Some? ==> StepsFrom(lIp, c, count) == ("", Step(lIp, c).1)
    ensures Step(lIp, c).1.None? ==> StepsFrom(lIp, c, count) == StepsFrom(Step(lIp, c).0, c, count - 1)
  {
    assert ClaimNext(lIp, c) == Step(lIp, c);
  }

  /** incrementIPBy on values: the CIDR's address plus count, or the overflow
      error past the end of the network; the parse error for a bad CIDR, and
      no end at all when the text before the '/' is empty. */
  lemma {:induction false} IncrementByValue(c: Cidr, count: int)
    requires Consistent(c) && count > 0
    ensures c.base == "" ==> IncrementBy(c, count) == ("", Some(Diverged))
    ensures c.base != "" && c.net.None? ==> IncrementBy(c, count) == ("", Some(CidrError))
    ensures c.net.Some? ==>
              var v := AddrValue(c.base).value;
              IncrementBy(c, count) ==
                if InNet(c.net.value, v + count) then (Text(v + count), None) else ("", Some(Overflowed))
  {
    if c.net.Some? {
      var v := AddrValue(c.base).value;
      AddrText(c.base);
      StepsFromValue(c, v, count);
    } else if c.base != "" {
      assert ClaimNext(c.base, c) == Step(c.base, c);
    }
  }

  /** The value the search for a fresh address starts after: the last claimed
      address, or for an empty lastIP the CIDR's address plus 520. */
  function Start(lastIP: string, c: Cidr): Option<int>
  {
    if lastIP == "" then
      match AddrValue(c.base)
      case Some(v) => Some(v + InitialSkip)
      case None => None
    else
      match AddrValue(lastIP)
      case Some(v) => Some(v)
      case None => None
  }

  /** The errors of claimNextIP that do not depend on where the search is:
      an empty lastIP with nothing before the '/' crashes (Diverged), a bad
      CIDR is reported, and so is a lastIP that is not an IPv4 address (as an
      overflow, since net.ParseIP gives nil and nil is in no network). */
  lemma {:induction false} ClaimNextErrors(lastIP: string, c: Cidr)
    requires Consistent(c)
    ensures lastIP == "" && c.base == "" ==> ClaimNext(lastIP, c) == ("", Some(Diverged))
    ensures c.net.None? && !(lastIP == "" && c.base == "") ==> ClaimNext(lastIP, c).1 == Some(CidrError)
    ensures c.net.Some? && lastIP != "" && AddrValue(lastIP).None? ==>
              ClaimNext(lastIP, c) == (lastIP, Some(Overflowed))
  {
    if lastIP == "" {
      IncrementByValue(c, InitialSkip);
      if c.base == "" {
        assert ClaimNext(lastIP, c) == ("", Some(Diverged));
      } else if c.net.None? {
        assert ClaimNext(lastIP, c) == ("", Some(CidrError));
      }
    } else if c.net.None? {
      assert ClaimNext(lastIP, c) == (lastIP, Some(CidrError));
    } else if AddrValue(lastIP).None? {
      assert NextInNet(lastIP, c.net.value) == None;
      assert ClaimNext(lastIP, c) == (lastIP, Some(Overflowed));
    }
  }

  /** claimNextIP on values: the address after the start when it is in the
      network; otherwise the overflow error, which comes back with lastIP, or
      for an empty lastIP with the start address when the network holds it.
      With no last claim, the first candidate is the CIDR's address plus 521.
      The start is known whenever the CIDR parses and lastIP, if given, is an
      IPv4 address. */
  lemma {:induction false} ClaimNextValue(lastIP: string, c: Cidr)
    requires Consistent(c) && c.net.Some?
    ensures Start(lastIP, c).Some? <==> lastIP == "" || AddrValue(lastIP).Some?
    ensures Start(lastIP, c).Some? ==>
              var s := Start(lastIP, c).value;
              ClaimNext(lastIP, c) ==
                if InNet(c.net.value, s + 1) then (Text(s + 1), None)
                else if lastIP != "" then (lastIP, Some(Overflowed))
                else if InNet(c.net.value, s) then (Text(s), Some(Overflowed))
                else ("", Some(Overflowed))
  {
    if Start(lastIP, c).Some? {
      var s := Start(lastIP, c).value;
      if lastIP == "" {
        ClaimNextFresh(c, s);
      } else {
        ClaimNextAfter(lastIP, c, s);
      }
    }
  }

  /** claimNextIP with no last claim: 520 steps from the CIDR's address, then
      one more. */
  lemma {:induction false} ClaimNextFresh(c: Cidr, s: nat)
    requires Consistent(c) && c.net.Some? && s == AddrValue(c.base).value + InitialSkip
    ensures ClaimNext("", c) ==
              if InNet(c.net.value, s + 1) then (Text(s + 1), None)
              else if InNet(c.net.value, s) then (Text(s), Some(Overflowed))
              else ("", Some(Overflowed))
  {
    IncrementByValue(c, InitialSkip);
    if InNet(c.net.value, s) {
      TextValue(s);
      StepNext(Text(s), c, s);
      assert ClaimNext("", c) == Step(Text(s), c);
    } else {
      assert ClaimNext("", c) == ("", Some(Overflowed));
    }
  }

  /** claimNextIP after the address of value w. */
  lemma {:induction false} ClaimNextAfter(lastIP: string, c: Cidr, w: nat)
    requires lastIP != "" && c.net.Some? && AddrValue(lastIP) == Some(w)
    ensures ClaimNext(lastIP, c) ==
              if InNet(c.net.value, w + 1) then (Text(w + 1), None) else (lastIP, Some(Overflowed))
  {
    StepNext(lastIP, c, w);
    assert ClaimNext(lastIP, c) == Step(lastIP, c);
  }

  // ---------------------------------------------------------------------
  // Which addresses may be claimed.

  /** isIpAvailableInNetwork: the network was listed, has containers, and no
      container's address (without its prefix length) is ip. */
  /** The two bookkeeping keys of the ConfigMap are not IPv4 addresses, so
      a claim never overwrites them. */
  lemma KeysAreNotAddresses()
    ensures AddrValue(CidrKey).None? && AddrValue(LastClaimedKey).None?
  {
    assert DigitRun(CidrKey, 0) == 0;
    assert DigitRun(LastClaimedKey, 0) == 0;
  }

  predicate AvailableInNetwork(ip: string, nw: Option<Network>)
  {
    nw.Some? && |nw.value.containers| > 0 &&
    forall c | c in nw.value.containers :: Before(c.ipv4, '/') != ip
  }

  method IsIpAvailableInNetwork(ip: string, nw: Option<Network>) returns (r: bool)
    ensures r == AvailableInNetwork(ip, nw)
  {
    if nw.None? || |nw.value.containers| == 0 {
      return false;
    }
    var cs := nw.value.containers;
    var i := 0;
    while i < |cs|
      invariant 0 <= i <= |cs|
      invariant forall k | 0 <= k < i :: Before(cs[k].ipv4, '/') != ip
    {
      if Before(cs[i].ipv4, '/') == ip {
        return false;
      }
      i := i + 1;
    }
    return true;
  }

  /** isIpValid: not a network (".0") or gateway (".1") address, and free. */
  predicate IpValid(ip: string, nw: Option<Network>)
  {
    |ip| >= 2 && !HasSuffix(ip, ".0") && !HasSuffix(ip, ".1") && AvailableInNetwork(ip, nw)
  }

  /** The two-character suffix test panics on a one-character string. */
  method IsIpValid(ip: string, nw: Option<Network>) returns (r: bool)
    requires |ip| != 1
    ensures r == IpValid(ip, nw)
  {
    if |ip| == 0 || ip[|ip| - 2..] == ".0" || ip[|ip| - 2..] == ".1" {
      return false;
    }
    r := IsIpAvailableInNetwork(ip, nw);
  }

  /** An address that passes isIpValid never has 0 or 1 as its last byte. */
  lemma {:induction false} ValidLastByte(ip: string, nw: Option<Network>)
    requires AddrValue(ip).Some? && IpValid(ip, nw)
    ensures AddrValue(ip).value % 256 >= 2
  {
    var a := ParseIPv4(ip).value;
    FormatParse(ip);
    FormatSuffix(a);
    assert Value(a) == Value(a[..3]) * 256 + a[3];
  }

  /** ip is the first address after `start` that passes isIpValid, and it is
      inside the network. */
  ghost predicate FirstValidAfter(start: int, n: IPNet, nw: Option<Network>, ip: string)
  {
    AddrValue(ip).Some? && start < AddrValue(ip).value && InNet(n, AddrValue(ip).value) &&
    IpValid(ip, nw) &&
    forall t | AddrValue(t).Some? && start < AddrValue(t).value < AddrValue(ip).value :: !IpValid(t, nw)
  }

  /** No address of the network after `start` passes isIpValid. */
  ghost predicate NoneValidAfter(start: int, n: IPNet, nw: Option<Network>)
  {
    forall t | AddrValue(t).Some? && start < AddrValue(t).value && InNet(n, AddrValue(t).value) ::
      !IpValid(t, nw)
  }

  /** What claimNextValidIP promises: the first valid address after the
      start; an empty lastIP with nothing before the '/' diverges, a bad CIDR
      is reported, a start that is not an address overflows at once, and an
      overflow later in the search means that no address of the network
      after the start is valid. No other error comes back. */
  ghost predicate NextValid(lastIP: string, cidr: string, nw: Option<Network>, ip: string, err: Option<Error>)
  {
    var c := ReadCidr(cidr);
    (lastIP == "" && c.base == "" ==> err == Some(Diverged)) &&
    (c.net.None? && !(lastIP == "" && c.base == "") ==> err == Some(CidrError)) &&
    (c.net.Some? && Start(lastIP, c).None? ==> err == Some(Overflowed)) &&
    (c.net.Some? && Start(lastIP, c).Some? && err.Some? ==> err == Some(Overflowed)) &&
    (err.None? ==>
       c.net.Some? && Start(lastIP, c).Some? &&
       FirstValidAfter(Start(lastIP, c).value, c.net.value, nw, ip)) &&
    (err == Some(Overflowed) && c.net.Some? && Start(lastIP, c).Some? &&
     InNet(c.net.value, Start(lastIP, c).value) ==>
       NoneValidAfter(Start(lastIP, c).value, c.net.value, nw)) &&
    (err.Some? ==> ip == "")
  }

  /** claimNextValidIP: keep stepping until an address passes isIpValid. */
  method ClaimNextValidIP(lastIP: string, cidr: string, nw: Option<Network>)
    returns (ip: string, err: Option<Error>)
    ensures NextValid(lastIP, cidr, nw, ip, err)
  {
    hide *;
    ghost var c := ReadCidr(cidr);
    var last := lastIP;
    ghost var started := false;
    ghost var v: int := 0;
    while true
      invariant !started ==> last == lastIP
      invariant started ==> Searched(lastIP, c, nw, last, v)
      decreases if started then IPv4Space - v else IPv4Space + 1
    {
      var next, e := ClaimNextIP(last, cidr);
      if e.Some? {
        FailureIsNextValid(lastIP, cidr, nw, last, v, started);
        return "", e;
      }
      SearchGoesOn(lastIP, c, nw, last, v, started);
      ghost var w := Start(last, c).value + 1;
      var valid := IsIpValid(next, nw);
      if valid {
        SuccessIsNextValid(lastIP, cidr, nw, last, v, started, next, w);
        return next, None;
      }
      SearchStep(lastIP, c, nw, last, v, started, next, w);
      last := next;
      started, v := true, w;
    }
  }

  /** The outcome of a failing step is what claimNextValidIP promises. */
  lemma FailureIsNextValid(lastIP: string, cidr: string, nw: Option<Network>, last: string, v: int,
                           started: bool)
    requires !started ==> last == lastIP
    requires started ==> Searched(lastIP, ReadCidr(cidr), nw, last, v)
    requires ClaimNext(last, ReadCidr(cidr)).1.Some?
    ensures NextValid(lastIP, cidr, nw, "", ClaimNext(last, ReadCidr(cidr)).1)
  {
    SearchFails(lastIP, ReadCidr(cidr), nw, last, v, started);
  }

  /** The outcome of a step that finds a valid address is what
      claimNextValidIP promises. */
  lemma SuccessIsNextValid(lastIP: string, cidr: string, nw: Option<Network>, last: string, v: int,
                           started: bool, next: string, w: int)
    requires !started ==> last == lastIP
    requires started ==> Searched(lastIP, ReadCidr(cidr), nw, last, v)
    requires var c := ReadCidr(cidr);
      c.net.Some? && Start(last, c).Some? && w == Start(last, c).value + 1 &&
      (started ==> Start(last, c).value == v) && Start(lastIP, c).Some? &&
      InNet(c.net.value, w) && AddrValue(next) == Some(w) && IpValid(next, nw)
    ensures NextValid(lastIP, cidr, nw, next, None)
  {
    SearchFinds(lastIP, ReadCidr(cidr), nw, last, v, started, next, w);
  }

  /** A failing step of claimNextValidIP: its error is the one the method
      promises, and after an overflow nothing further was valid. */
  lemma {:induction false} SearchFails(lastIP: string, c: Cidr, nw: Option<Network>, last: string, v: int,
                                       started: bool)
    requires Consistent(c)
    requires !started ==> last == lastIP
    requires started ==> Searched(lastIP, c, nw, last, v)
    requires ClaimNext(last, c).1.Some?
    ensures var e := ClaimNext(last, c).1;
            (lastIP == "" && c.base == "" ==> e == Some(Diverged)) &&
            (c.net.None? && !(lastIP == "" && c.base == "") ==> e == Some(CidrError)) &&
            (c.net.Some? && Start(lastIP, c).None? ==> e == Some(Overflowed))
    ensures c.net.Some? && Start(lastIP, c).Some? ==> ClaimNext(last, c).1 == Some(Overflowed)
    ensures ClaimNext(last, c).1 == Some(Overflowed) && c.net.Some? && Start(lastIP, c).Some? &&
            InNet(c.net.value, Start(lastIP, c).value) ==>
              NoneValidAfter(Start(lastIP, c).value, c.net.value, nw)
  {
    if started {
      AddrLength(last);
      ClaimNextValue(last, c);
      SearchedToEnd(lastIP, c, nw, last, v);
    } else {
      ClaimNextErrors(last, c);
      if c.net.Some? {
        ClaimNextValue(last, c);
      }
    }
  }

  /** A successful step of claimNextValidIP gives the address of value
      start + 1, which the network holds. */
  lemma {:induction false} SearchGoesOn(lastIP: string, c: Cidr, nw: Option<Network>, last: string, v: int,
                                        started: bool)
    requires Consistent(c)
    requires !started ==> last == lastIP
    requires started ==> Searched(lastIP, c, nw, last, v)
    requires ClaimNext(last, c).1.None?
    ensures c.net.Some? && Start(last, c).Some? && Start(lastIP, c).Some?
    ensures started ==> Start(last, c).value == v
    ensures !(lastIP == "" && c.base == "")
    ensures var w := Start(last, c).value + 1;
            InNet(c.net.value, w) && AddrValue(ClaimNext(last, c).0) == Some(w) &&
            |ClaimNext(last, c).0| >= 2
  {
    hide AddrValue;
    hide ClaimNext;
    hide Text;
    if started {
      AddrLength(last);
      assert Start(last, c) == Some(v);
    }
    ClaimNextSucceeds(last, c);
    if lastIP == "" {
      AddrLength(c.base);
    }
    var s := Start(last, c).value;
    TextValue(s + 1);
    AddrLength(Text(s + 1));
  }

  /** When claimNextIP reports no error, the CIDR parsed, the start is known
      and the claim is the address after it, which the network holds. */
  lemma {:induction false} ClaimNextSucceeds(lastIP: string, c: Cidr)
    requires Consistent(c) && ClaimNext(lastIP, c).1.None?
    ensures c.net.Some? && Start(lastIP, c).Some?
    ensures var s := Start(lastIP, c).value;
            InNet(c.net.value, s + 1) && ClaimNext(lastIP, c).0 == Text(s + 1)
  {
    ClaimNextErrors(lastIP, c);
    ClaimNextValue(lastIP, c);
  }

  /** A valid address after the searched range is the first valid one
      after the start. */
  lemma {:induction false} SearchFinds(lastIP: string, c: Cidr, nw: Option<Network>, last: string, v: int,
                                       started: bool, next: string, w: int)
    requires !started ==> last == lastIP
    requires started ==> Searched(lastIP, c, nw, last, v)
    requires c.net.Some? && Start(last, c).Some? && w == Start(last, c).value + 1
    requires started ==> Start(last, c).value == v
    requires Start(lastIP, c).Some?
    requires InNet(c.net.value, w) && AddrValue(next) == Some(w) && IpValid(next, nw)
    ensures FirstValidAfter(Start(lastIP, c).value, c.net.value, nw, next)
  {
  }

  /** The state of claimNextValidIP after a rejected address: `last` is the
      address of value v, and every address from the start up to v was
      invalid. */
  ghost predicate Searched(lastIP: string, c: Cidr, nw: Option<Network>, last: string, v: int)
  {
    c.net.Some? && Start(lastIP, c).Some? &&
    Start(lastIP, c).value < v && InNet(c.net.value, v) && AddrValue(last) == Some(v) &&
    forall t | AddrValue(t).Some? && Start(lastIP, c).value < AddrValue(t).value <= v :: !IpValid(t, nw)
  }

  /** One rejected address extends the searched range by one. */
  lemma {:induction false} SearchStep(lastIP: string, c: Cidr, nw: Option<Network>, last: string, v: int,
                   started: bool, next: string, w: int)
    requires !started ==> last == lastIP
    requires started ==> Searched(lastIP, c, nw, last, v)
    requires c.net.Some? && Start(last, c).Some? && w == Start(last, c).value + 1
    requires InNet(c.net.value, w) && AddrValue(next) == Some(w) && !IpValid(next, nw)
    ensures Searched(lastIP, c, nw, next, w)
  {
    forall t | AddrValue(t) == Some(w)
      ensures !IpValid(t, nw)
    {
      AddrValueInjective(t, next);
    }
  }

  /** When the step after a searched range leaves the network, nothing in the
      network after the start was valid. */
  lemma {:induction false} SearchedToEnd(lastIP: string, c: Cidr, nw: Option<Network>, last: string, v: int)
    requires Searched(lastIP, c, nw, last, v) && !InNet(c.net.value, v + 1)
    ensures NoneValidAfter(Start(lastIP, c).value, c.net.value, nw)
  {
  }

  /** On a network without containers (or one that could not be listed) no
      address is valid, so every search for a fresh address overflows. */
  lemma {:induction false} EmptyNetworkNothingValid(ip: string, nw: Option<Network>)
    requires nw.None? || nw.value.containers == []
    ensures !IpValid(ip, nw)
  {
  }

  // ---------------------------------------------------------------------
  // Reading the ConfigMap data.

  /** isIpAlreadyClaimedForMachine and isAnyClaimedIpAvailable: some key whose
      value is `value`; which one, when several are, depends on Go's map
      iteration order. */
  method KeyWithValue(data: Table, value: string) returns (found: bool, key: string)
    ensures found <==> exists k | k in data :: data[k] == value
    ensures found ==> key in data && data[key] == value
    ensures !found ==> key == ""
  {
    var keys := data.Keys;
    while keys != {}
      invariant keys <= data.Keys
      invariant forall k | k in data && k !in keys :: data[k] != value
      decreases |keys|
    {
      var k :| k in keys;
      if data[k] == value {
        return true, k;
      }
      keys := keys - {k};
    }
    return false, "";
  }

  /** ipDiscovery's test of whether a machine still exists: its name followed
      by a comma occurs in the comma-joined list of names with a trailing
      comma. */
  predicate Live(v: string, machines: seq<string>)
  {
    Contains(Join(machines, ",") + ",", v + ",")
  }

  /** Entries ipDiscovery looks at: addresses (not the CIDR or last-claimed
      entries) whose holder is not a load balancer ("-lb" suffix). */
  predicate Reclaimable(k: string, v: string)
  {
    k != CidrKey && k != LastClaimedKey && |v| >= 3 && !LoadBalancer(v)
  }

  /** The last three characters of v are "-lb". */
  predicate LoadBalancer(v: string)
    requires |v| >= 3
  {
    v[|v| - 3] == '-' && v[|v| - 2] == 'l' && v[|v| - 1] == 'b'
  }

  /** An address entry with a value shorter than three characters makes the
      "-lb" test slice out of range. */
  predicate DiscoveryPanics(data: Table)
  {
    exists k | k in data :: k != CidrKey && k != LastClaimedKey && |data[k]| < 3
  }

  /** The claim data ipDiscovery writes back: each reclaimable entry keeps its
      machine when that machine is live and becomes AVAILABLE otherwise. */
  function Reclaimed(data: Table, machines: seq<string>): (r: Table)
    ensures r.Keys <= data.Keys
    ensures forall k | k in data :: k in r <==> Reclaimable(k, data[k])
    ensures forall k | k in r :: r[k] == data[k] || r[k] == Available
  {
    map k | k in data && Reclaimable(k, data[k]) :: if Live(data[k], machines) then data[k] else Available
  }

  /** The data after ipDiscovery, or None when it panics. */
  function AfterDiscovery(data: Table, machines: Option<seq<string>>): Option<Table>
  {
    if |data| == 0 || machines.None? then Some(data)
    else if DiscoveryPanics(data) then None
    else Some(data + Reclaimed(data, machines.value))
  }

  /** Every listed machine is live, so discovery never frees its address. */
  lemma {:induction false} ListedMachinesAreLive(machines: seq<string>, m: string)
    requires m in machines
    ensures Live(m, machines)
  {
    var i :| 0 <= i < |machines| && machines[i] == m;
    var joined := Join(machines, ",") + ",";
    var at := JoinedOffset(machines, i);
    assert OccursAt(joined, m + ",", at);
  }

  /** Where the i-th name starts in the joined list. */
  lemma {:induction false} JoinedOffset(machines: seq<string>, i: nat) returns (at: nat)
    requires i < |machines|
    ensures OccursAt(Join(machines, ",") + ",", machines[i] + ",", at)
  {
    var joined := Join(machines, ",") + ",";
    if |machines| == 1 {
      at := 0;
      assert joined == machines[0] + ",";
    } else {
      var rest := machines[1..];
      assert Join(machines, ",") == machines[0] + "," + Join(rest, ",");
      assert joined == (machines[0] + ",") + (Join(rest, ",") + ",");
      if i == 0 {
        at := 0;
        assert joined[..|machines[0]| + 1] == machines[0] + ",";
      } else {
        var inner := JoinedOffset(rest, i - 1);
        at := |machines[0]| + 1 + inner;
        var tail := Join(rest, ",") + ",";
        assert joined[|machines[0]| + 1..] == tail;
        assert joined[at..at + |machines[i] + ","|] == tail[inner..inner + |machines[i] + ","|];
      }
    }
  }

  /** The liveness test is a substring test: a machine whose name ends another
      live machine's name counts as live although it is gone. */
  lemma {:induction false} SuffixNameCountsAsLive(machines: seq<string>, i: nat, prefix: string, m: string)
    requires i < |machines| && machines[i] == prefix + m
    ensures Live(m, machines)
  {
    var joined := Join(machines, ",") + ",";
    var at := JoinedOffset(machines, i);
    assert joined[at + |prefix|..at + |prefix| + |m + ","|] == (machines[i] + ",")[|prefix|..];
    assert OccursAt(joined, m + ",", at + |prefix|);
  }


  /** Running discovery twice with the same machines changes nothing more. */
  lemma {:induction false} DiscoveryIdempotent(data: Table, machines: seq<string>)
    requires |data| > 0 && !DiscoveryPanics(data)
    ensures |data + Reclaimed(data, machines)| > 0
    ensures !DiscoveryPanics(data + Reclaimed(data, machines))
    ensures AfterDiscovery(data + Reclaimed(data, machines), Some(machines)) ==
            Some(data + Reclaimed(data, machines))
  {
    var d := data + Reclaimed(data, machines);
    assert d.Keys == data.Keys;
    var k0 :| k0 in data;
    assert k0 in d;
    ReclaimStable(data, machines);
    MergeIdempotent(data, Reclaimed(data, machines));
  }

  /** The entries discovery writes are the same when it runs on its own
      output: a live holder stays live, and AVAILABLE stays AVAILABLE. */
  lemma {:induction false} ReclaimStable(data: Table, machines: seq<string>)
    requires !DiscoveryPanics(data)
    ensures Reclaimed(data + Reclaimed(data, machines), machines) == Reclaimed(data, machines)
  {
    var r := Reclaimed(data, machines);
    var d := data + r;
    forall k | k in d
      ensures Reclaimable(k, d[k]) <==> Reclaimable(k, data[k])
    {
    }
  }

  /** Re-applying the same write to merged data changes nothing: the basis of
      treating every retried write after the first as a no-op. */
  lemma {:induction false} MergeIdempotent(t: Table, d: Table)
    ensures (t + d) + d == t + d
  {
  }

  /** The loop of ipDiscovery over the claim data: the entries to write
      back, or a panic on a value shorter than three characters. */
  method ReclaimScan(data: Table, names: seq<string>) returns (panicked: bool, claim: Table)
    ensures panicked <==> DiscoveryPanics(data)
    ensures !panicked ==> claim == Reclaimed(data, names)
  {
    claim := map[];
    var keys := data.Keys;
    while keys != {}
      invariant keys <= data.Keys
      invariant forall k | k in data && k !in keys :: !(k != CidrKey && k != LastClaimedKey && |data[k]| < 3)
      invariant forall k :: k in claim <==> k in data && k !in keys && Reclaimable(k, data[k])
      invariant forall k | k in claim :: claim[k] == if Live(data[k], names) then data[k] else Available
      decreases |keys|
    {
      var k :| k in keys;
      var v := data[k];
      if k != CidrKey && k != LastClaimedKey {
        if |v| < 3 {
          return true, map[];
        }
        if !LoadBalancer(v) {
          var live := ContainsFrom(Join(names, ",") + ",", v + ",", 0);
          claim := claim[k := if live then v else Available];
        }
      }
      keys := keys - {k};
    }
    assert claim == Reclaimed(data, names);
    return false, claim;
  }

  /** The merge of `data` into `base` has written every key of `data`
      except those in `keys`. */
  ghost predicate MergedExcept(base: Table, data: Table, keys: set<string>, merged: Table)
  {
    keys <= data.Keys &&
    merged.Keys == base.Keys + (data.Keys - keys) &&
    forall k | k in merged :: merged[k] == if k in data && k !in keys then data[k] else base[k]
  }

  lemma MergeStart(base: Table, data: Table)
    ensures MergedExcept(base, data, data.Keys, base)
  {
  }

  lemma MergeStep(base: Table, data: Table, keys: set<string>, merged: Table, k: string)
    requires MergedExcept(base, data, keys, merged) && k in keys
    ensures MergedExcept(base, data, keys - {k}, merged[k := data[k]])
  {
  }

  lemma MergeDone(base: Table, data: Table, merged: Table)
    requires MergedExcept(base, data, {}, merged)
    ensures merged == base + data
  {
  }

  /** A second update of the same key replaces the first. */
  lemma UpdateTwice(m: map<string, Table>, k: string, a: Table, b: Table)
    ensures m[k := a][k := b] == m[k := b]
  {
  }

  // ---------------------------------------------------------------------
  // The allocator's choice of address.

  /** What findIpFromClaimedIpPool may hand back: an address the machine
      already holds, else an AVAILABLE one (both found in the pool), else
      the last claimed address, not found. Which key, when several hold the
      value, is left open. */
  ghost predicate PoolPick(data: Table, machine: string, existing: bool, cand: string)
  {
    if exists k | k in data :: data[k] == machine then
      existing && cand in data && data[cand] == machine
    else if exists k | k in data :: data[k] == Available then
      existing && cand in data && data[cand] == Available
    else
      !existing && cand == (if LastClaimedKey in data then data[LastClaimedKey] else "")
  }

  /** ClaimIP after the pool lookup gave (existing, cand): a pool address
      the docker network does not use is reused without error, and the write
      records the claim; otherwise claimNextValidIP searches after cand, its
      error is the only one, and the write also records the fresh address as
      last claimed. */
  ghost predicate ClaimedFrom(existing: bool, cand: string, machine: string, cidr: string,
                              nw: Option<Network>, ip: string, write: Table, err: Option<Error>)
  {
    if existing && AvailableInNetwork(cand, nw) then
      ip == cand && err == None && write == map[CidrKey := cidr, cand := machine]
    else
      NextValid(cand, cidr, nw, ip, err) &&
      (err.None? ==> write == map[CidrKey := cidr, LastClaimedKey := ip, ip := machine])
  }

  /** The outcome of the choice for some answer of the pool lookup. */
  ghost predicate Claimed(data: Table, machine: string, cidr: string, nw: Option<Network>,
                          ip: string, write: Table, err: Option<Error>)
  {
    exists existing: bool, cand: string | PoolPick(data, machine, existing, cand) ::
      ClaimedFrom(existing, cand, machine, cidr, nw, ip, write, err)
  }

  /** What a claim amounts to: the address is free in the docker network;
      it is a pool address held by the machine or AVAILABLE, or else a valid
      fresh address recorded as last claimed, and it must be fresh when the
      pool has neither. A fresh claim never overwrites the bookkeeping keys. */
  lemma ClaimedOutcome(data: Table, machine: string, cidr: string, nw: Option<Network>,
                       ip: string, write: Table, err: Option<Error>)
    requires Claimed(data, machine, cidr, nw, ip, write, err)
    ensures err.Some? ==> ip == ""
    ensures err.None? ==>
              AvailableInNetwork(ip, nw) &&
              ((ip in data && (data[ip] == machine || data[ip] == Available) &&
                write == map[CidrKey := cidr, ip := machine]) ||
               (IpValid(ip, nw) && ip != CidrKey && ip != LastClaimedKey &&
                write == map[CidrKey := cidr, LastClaimedKey := ip, ip := machine]))
    ensures err.None? && (forall k | k in data :: data[k] != machine && data[k] != Available) ==>
              IpValid(ip, nw) && LastClaimedKey in write && write[LastClaimedKey] == ip
  {
    var existing, cand :| PoolPick(data, machine, existing, cand) &&
      ClaimedFrom(existing, cand, machine, cidr, nw, ip, write, err);
    KeysAreNotAddresses();
  }

  /** The machine's own address is reused without error when the docker
      network does not use it, even when AVAILABLE addresses exist. */
  lemma OwnAddressReused(data: Table, machine: string, cidr: string, nw: Option<Network>,
                         ip: string, write: Table, err: Option<Error>, k: string)
    requires Claimed(data, machine, cidr, nw, ip, write, err)
    requires k in data && data[k] == machine && AvailableInNetwork(k, nw)
    requires forall j | j in data && data[j] == machine :: j == k
    ensures err == None && ip == k && write == map[CidrKey := cidr, k := machine]
  {
    var existing, cand :| PoolPick(data, machine, existing, cand) &&
      ClaimedFrom(existing, cand, machine, cidr, nw, ip, write, err);
  }

  /** With no address of its own, the machine gets a free AVAILABLE address. */
  lemma AvailableAddressReused(data: Table, machine: string, cidr: string, nw: Option<Network>,
                               ip: string, write: Table, err: Option<Error>, k: string)
    requires Claimed(data, machine, cidr, nw, ip, write, err)
    requires forall j | j in data :: data[j] != machine
    requires k in data && data[k] == Available && AvailableInNetwork(k, nw)
    requires forall j | j in data && data[j] == Available :: j == k
    ensures err == None && ip == k && write == map[CidrKey := cidr, k := machine]
  {
    var existing, cand :| PoolPick(data, machine, existing, cand) &&
      ClaimedFrom(existing, cand, machine, cidr, nw, ip, write, err);
  }

  /** With neither, the search for a fresh address starts after the last
      claimed address. */
  lemma SearchAfterLastClaimed(data: Table, machine: string, cidr: string, nw: Option<Network>,
                               ip: string, write: Table, err: Option<Error>)
    requires Claimed(data, machine, cidr, nw, ip, write, err)
    requires forall j | j in data :: data[j] != machine && data[j] != Available
    ensures NextValid(if LastClaimedKey in data then data[LastClaimedKey] else "", cidr, nw, ip, err)
  {
    var existing, cand :| PoolPick(data, machine, existing, cand) &&
      ClaimedFrom(existing, cand, machine, cidr, nw, ip, write, err);
  }

  // ---------------------------------------------------------------------
  // The allocator state.

  class Allocator {
    /** The ipam-config ConfigMap data of each namespace that has one. */
    var tables: map<string, Table>
    /** The package-level cache of the docker network's CIDR. */
    var cidrCache: string

    constructor ()
      ensures tables == map[] && cidrCache == ""
    {
      tables := map[];
      cidrCache := "";
    }

    /** getIpConfigData: the data, empty when the ConfigMap does not exist. */
    function Data(ns: string): Table
      reads this
    {
      if ns in tables then tables[ns] else map[]
    }

    /** cacheIpConfigData: create the ConfigMap with `data` (reporting the
        not-found error of the lookup), or merge `data` into it. */
    method CacheIpConfigData(ns: string, data: Table) returns (err: Option<Error>)
      modifies this`tables
      ensures ns !in old(tables) ==> tables == old(tables)[ns := data] && err == Some(NotFound)
      ensures ns in old(tables) ==> tables == old(tables)[ns := old(tables)[ns] + data] && err == None
      ensures tables == old(tables)[ns := old(Data(ns)) + data]
    {
      if ns !in tables {
        assert map[] + data == data;
        tables := tables[ns := data];
        return Some(NotFound);
      }
      hide MergedExcept;
      var base := tables[ns];
      var merged := base;
      var keys := data.Keys;
      MergeStart(base, data);
      while keys != {}
        invariant tables == old(tables)
        invariant keys <= data.Keys
        invariant MergedExcept(base, data, keys, merged)
        decreases |keys|
      {
        var k :| k in keys;
        MergeStep(base, data, keys, merged, k);
        merged := merged[k := data[k]];
        keys := keys - {k};
      }
      MergeDone(base, data, merged);
      tables := tables[ns := merged];
      return None;
    }

    /** ipDiscovery: mark the addresses of machines that no longer exist as
        AVAILABLE. Nothing happens for an empty or missing ConfigMap, a failed
        machine listing, or a panic; otherwise the claim data is merged in. */
    method IpDiscovery(ns: string, machines: Option<seq<string>>) returns (err: Option<Error>)
      modifies this`tables
      ensures AfterDiscovery(old(Data(ns)), machines).None? <==> err == Some(Panicked)
      ensures AfterDiscovery(old(Data(ns)), machines).None? ==> tables == old(tables)
      ensures AfterDiscovery(old(Data(ns)), machines).Some? ==>
                Data(ns) == AfterDiscovery(old(Data(ns)), machines).value
      ensures tables == old(tables) || (ns in old(tables) && tables == old(tables)[ns := Data(ns)])
      ensures |old(Data(ns))| > 0 && machines.None? ==> err == Some(ListError)
    {
      var data := Data(ns);
      if |data| == 0 {
        return None;
      }
      if machines.None? {
        return Some(ListError);
      }
      var panicked, claim := ReclaimScan(data, machines.value);
      if panicked {
        return Some(Panicked);
      }
      err := CacheIpConfigData(ns, claim);
    }

    /** getCidrRange: the cached CIDR, filled from the docker network on first
        use when the network lookup succeeds and reports a CIDR. */
    method GetCidrRange(nw: Option<Network>) returns (cidr: string)
      modifies this`cidrCache
      ensures old(cidrCache) != "" ==> cidrCache == old(cidrCache)
      ensures old(cidrCache) == "" && nw.Some? ==> cidrCache == nw.value.cidr
      ensures old(cidrCache) == "" && nw.None? ==> cidrCache == ""
      ensures cidr == cidrCache
    {
      if |cidrCache| == 0 {
        if nw.Some? && |nw.value.cidr| > 0 {
          cidrCache := nw.value.cidr;
        }
      }
      return cidrCache;
    }

    /** findIpFromClaimedIpPool: the address already held by the machine, else
        an AVAILABLE address, else (not found) the last claimed address. */
    method FindIpFromClaimedIpPool(ns: string, machine: string) returns (existing: bool, ip: string)
      ensures PoolPick(Data(ns), machine, existing, ip)
    {
      var data := Data(ns);
      var claimed, key := KeyWithValue(data, machine);
      if claimed {
        return true, key;
      }
      var free, freeKey := KeyWithValue(data, Available);
      if free {
        return true, freeKey;
      }
      return false, if LastClaimedKey in data then data[LastClaimedKey] else "";
    }

    /** The choice ClaimIP makes after discovery: the machine's own address,
        else an AVAILABLE one, when the docker network does not use it;
        otherwise the first valid address after the pool's answer; and the
        data the claim writes. */
    method ChooseAddress(ns: string, machine: string, nw: Option<Network>, cidr: string)
      returns (ip: string, write: Table, err: Option<Error>)
      ensures Claimed(Data(ns), machine, cidr, nw, ip, write, err)
      ensures err.Some? ==> ip == ""
    {
      hide AddrValue;
      hide AvailableInNetwork;
      var existing, candidate := FindIpFromClaimedIpPool(ns, machine);
      var reuse := false;
      if existing {
        reuse := IsIpAvailableInNetwork(candidate, nw);
      }
      if reuse {
        ip := candidate;
        write := map[CidrKey := cidr, ip := machine];
        assert ClaimedFrom(existing, candidate, machine, cidr, nw, ip, write, None);
        return ip, write, None;
      }
      var next, e := ClaimNextValidIP(candidate, cidr, nw);
      if e.Some? {
        assert ClaimedFrom(existing, candidate, machine, cidr, nw, "", map[], e);
        return "", map[], e;
      }
      KeysAreNotAddresses();
      ip := next;
      write := map[CidrKey := cidr, LastClaimedKey := ip, ip := machine];
      assert ClaimedFrom(existing, candidate, machine, cidr, nw, ip, write, None);
      return ip, write, None;
    }

    /** ClaimIP: discovery, then the address ChooseAddress picks. The claim
        is written with cacheIPReclaim or cacheAllocatedIP through Retry, ten
        times two seconds apart. */
    method ClaimIP(ns: string, machine: string, nw: Option<Network>, machines: Option<seq<string>>)
      returns (ip: string, err: Option<Error>)
      modifies this
      ensures AfterDiscovery(old(Data(ns)), machines).None? ==>
                err == Some(Panicked) && tables == old(tables) && cidrCache == old(cidrCache)
      ensures tables == old(tables) || tables == old(tables)[ns := Data(ns)]
      ensures old(cidrCache) != "" ==> cidrCache == old(cidrCache)
      ensures old(cidrCache) == "" && nw.Some? && AfterDiscovery(old(Data(ns)), machines).Some? ==>
                cidrCache == nw.value.cidr
      ensures old(cidrCache) == "" && nw.None? ==> cidrCache == ""
      ensures err.Some? ==> ip == ""
      ensures AfterDiscovery(old(Data(ns)), machines).Some? ==>
                var d := AfterDiscovery(old(Data(ns)), machines).value;
                (err.Some? ==> Data(ns) == d) &&
                exists write: Table :: Claimed(d, machine, cidrCache, nw, ip, write, err) &&
                  (err.None? ==> Data(ns) == d + write)
    {
      hide AddrValue;
      hide AvailableInNetwork;
      hide IpValid;
      hide AfterDiscovery;
      hide Claimed, ClaimedFrom, PoolPick, NextValid, Reclaimed, DiscoveryPanics;
      var discovered := IpDiscovery(ns, machines);
      if discovered == Some(Panicked) {
        return "", Some(Panicked);
      }
      ghost var d := Data(ns);
      var cidr := GetCidrRange(nw);
      var write;
      ip, write, err := ChooseAddress(ns, machine, nw, cidr);
      if err.Some? {
        assert Claimed(d, machine, cidrCache, nw, ip, write, err);
        return;
      }
      ghost var before := tables;
      var first := CacheIpConfigData(ns, write);
      assert tables == old(tables)[ns := d + write] by {
        if before != old(tables) {
          UpdateTwice(old(tables), ns, d, d + write);
        }
      }
      // Every later call of the retried closure finds the ConfigMap and merges
      // the same data again, which changes nothing and succeeds.
      assert ns in tables && tables[ns] == d + write;
      MergeIdempotent(d, write);
      var rerr, calls, sleeps, slept :=
        Retry.Retry((i: nat) => if i == 0 then first else None, RetryDelaySeconds, RetryCount);
      assert rerr == err;
      err := rerr;
      assert Claimed(d, machine, cidrCache, nw, ip, write, err);
    }
  }
}
