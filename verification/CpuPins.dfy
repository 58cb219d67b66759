/** Dealing host CPUs out to virtual machines, and pinning them in each machine's description. */
module CpuPins {
  import opened Bytes
  import opened XmlTree
  import opened VirtXml

  /** Position `k` of group `i` among `n` groups. */
  lemma {:induction false} StrideInRange(n: nat, width: nat, i: nat, k: nat)
    requires i < n && k < width
    ensures i + k * n < n * width
  {
    MulMono(k + 1, width, n);
  }

  lemma {:induction false} MulMono(a: int, b: int, n: nat)
    requires a <= b
    ensures a * n <= b * n
  {
  }

  lemma {:induction false} StrideUnique(n: nat, i: nat, k: nat, j: nat, l: nat)
    requires i < n && j < n && i + k * n == j + l * n
    ensures i == j && k == l
  {
    var d: int := l - k;
    assert d * n == l * n - k * n;
    if d > 0 {
      MulMono(1, d, n);
    } else if d < 0 {
      MulMono(d, -1, n);
    }
  }

  /** The CPUs of group `i`: every `n`-th one from `i` on. */
  ghost predicate Strided(group: seq<nat>, cpus: seq<nat>, n: nat, width: nat, i: nat)
    requires i < n && n * width <= |cpus|
  {
    && |group| == width
    && (forall k :: 0 <= k < width ==> Dealt(group, cpus, n, width, i, k))
  }

  ghost predicate Dealt(group: seq<nat>, cpus: seq<nat>, n: nat, width: nat, i: nat, k: nat)
    requires i < n && n * width <= |cpus| && |group| == width && k < width
  {
    StrideInRange(n, width, i, k);
    group[k] == cpus[i + k * n]
  }

  /** Deals the list out to `vmNum` machines, `coreNum + 1` CPUs each; false when it is too short. */
  method GetCpuidsGroup(cpus: seq<nat>, vmNum: nat, coreNum: nat) returns (ok: bool, groups: seq<seq<nat>>)
    ensures ok <==> |cpus| > vmNum * (coreNum + 1)
    ensures ok ==> |groups| == vmNum && forall i :: 0 <= i < vmNum ==> Strided(groups[i], cpus, vmNum, coreNum + 1, i)
  {
    groups := [];
    if !(|cpus| > vmNum * (coreNum + 1)) {
      return false, groups;
    }
    ghost var width := coreNum + 1;
    for i := 0 to vmNum
      invariant |groups| == i && forall j :: 0 <= j < i ==> Strided(groups[j], cpus, vmNum, width, j)
    {
      var cpuids: seq<nat> := [];
      var start := i;
      for k := 0 to coreNum + 1
        invariant |cpuids| == k && start == i + k * vmNum
        invariant forall l {:trigger cpuids[l]} :: 0 <= l < k ==> StrideIs(cpuids[l], cpus, i + l * vmNum)
      {
        StrideInRange(vmNum, width, i, k);
        cpuids := cpuids + [cpus[start]];
        start := start + vmNum;
        assert (k + 1) * vmNum == k * vmNum + vmNum;
      }
      forall k | 0 <= k < width
        ensures Dealt(cpuids, cpus, vmNum, width, i, k)
      {
        StrideInRange(vmNum, width, i, k);
        assert StrideIs(cpuids[k], cpus, i + k * vmNum);
      }
      assert Strided(cpuids, cpus, vmNum, width, i);
      groups := groups + [cpuids];
    }
    return true, groups;
  }

  ghost predicate StrideIs(cpu: nat, cpus: seq<nat>, at: int)
  {
    0 <= at < |cpus| && cpu == cpus[at]
  }

  ghost predicate Distinct(cpus: seq<nat>)
  {
    forall i, j :: 0 <= i < j < |cpus| ==> cpus[i] != cpus[j]
  }

  ghost predicate AllStrided(groups: seq<seq<nat>>, cpus: seq<nat>, width: nat)
  {
    |groups| * width <= |cpus| && forall i :: 0 <= i < |groups| ==> Strided(groups[i], cpus, |groups|, width, i)
  }

  /** No host CPU is dealt twice, neither within a machine nor across machines. */
  lemma {:induction false} DealtOnce(groups: seq<seq<nat>>, cpus: seq<nat>, width: nat, i: nat, k: nat, j: nat, l: nat)
    requires Distinct(cpus) && AllStrided(groups, cpus, width)
    requires i < |groups| && j < |groups| && k < width && l < width
    requires groups[i][k] == groups[j][l]
    ensures i == j && k == l
  {
    var n := |groups|;
    assert Dealt(groups[i], cpus, n, width, i, k) && Dealt(groups[j], cpus, n, width, j, l);
    StrideInRange(n, width, i, k);
    StrideInRange(n, width, j, l);
    StrideUnique(n, i, k, j, l);
  }

  /** Every dealt CPU is one of the first ones of the list. */
  lemma {:induction false} InHost(groups: seq<seq<nat>>, cpus: seq<nat>, width: nat, i: nat, k: nat)
    requires AllStrided(groups, cpus, width) && i < |groups| && k < width
    ensures |groups[i]| == width && groups[i][k] in cpus[..|groups| * width]
  {
    assert Dealt(groups[i], cpus, |groups|, width, i, k);
    StrideInRange(|groups|, width, i, k);
    assert cpus[..|groups| * width][i + k * |groups|] == groups[i][k];
  }

  /** What is dealt is exactly the first CPUs of the list: each of them lands in some group, and every
      group holds only those. */
  lemma {:induction false} DealsAPrefix(groups: seq<seq<nat>>, cpus: seq<nat>, width: nat)
    requires AllStrided(groups, cpus, width)
    ensures forall c :: c in cpus[..|groups| * width] <==> exists i :: 0 <= i < |groups| && c in groups[i]
  {
    forall c | c in cpus[..|groups| * width]
      ensures exists i :: 0 <= i < |groups| && c in groups[i]
    {
      var at :| 0 <= at < |groups| * width && cpus[..|groups| * width][at] == c;
      PrefixDealt(groups, cpus, width, at);
    }
    forall c, i | 0 <= i < |groups| && c in groups[i]
      ensures c in cpus[..|groups| * width]
    {
      var k :| 0 <= k < |groups[i]| && groups[i][k] == c;
      InHost(groups, cpus, width, i, k);
    }
  }

  lemma {:induction false} PrefixDealt(groups: seq<seq<nat>>, cpus: seq<nat>, width: nat, at: nat)
    requires AllStrided(groups, cpus, width) && at < |groups| * width
    ensures exists i :: 0 <= i < |groups| && cpus[at] in groups[i]
  {
    var n := |groups|;
    SomeGroup(n, width, at);
    var i, k := at % n, at / n;
    QuotientInRange(at, n, width);
    assert Dealt(groups[i], cpus, n, width, i, k);
    assert groups[i][k] == cpus[at];
  }

  lemma {:induction false} SomeGroup(n: nat, width: nat, at: nat)
    requires at < n * width
    ensures n > 0
  {
  }

  lemma {:induction false} QuotientInRange(at: nat, n: nat, width: nat)
    requires n > 0 && at < n * width
    ensures at / n < width && at == at % n + at / n * n
  {
    var q := at / n;
    if q >= width {
      MulMono(width, q, n);
    }
  }

  // Numbers as attribute values

  function Dec(n: nat): (s: string)
    ensures |s| > 0
  {
    if n < 10 then [('0' as int + n) as char] else Dec(n / 10) + [('0' as int + n % 10) as char]
  }

  lemma {:induction false} DecInjective(m: nat, n: nat)
    requires Dec(m) == Dec(n)
    ensures m == n
  {
    var s, t := Dec(m), Dec(n);
    assert (|s| == 1 <==> m < 10) && (|t| == 1 <==> n < 10);
    assert s[|s| - 1] == ('0' as int + m % 10) as char && t[|t| - 1] == ('0' as int + n % 10) as char;
    if m >= 10 && n >= 10 {
      assert s[..|s| - 1] == Dec(m / 10) && t[..|t| - 1] == Dec(n / 10);
      DecInjective(m / 10, n / 10);
    }
  }

  /** The number a decimal text denotes. */
  function FromDec(s: string): int
  {
    if |s| == 0 then 0 else 10 * FromDec(s[..|s| - 1]) + (s[|s| - 1] as int - '0' as int)
  }

  /** The text of a number denotes it, in digits only and without a leading zero. */
  lemma {:induction false} DecDenotes(n: nat)
    ensures FromDec(Dec(n)) == n
    ensures forall i :: 0 <= i < |Dec(n)| ==> '0' <= Dec(n)[i] <= '9'
    ensures Dec(n)[0] == '0' <==> n == 0
  {
    var s := Dec(n);
    if n < 10 {
      assert s[..0] == "";
    } else {
      DecDenotes(n / 10);
      assert s[..|s| - 1] == Dec(n / 10);
    }
  }

  // Pins

  /** The pins of one kind in a description. */
  function Pins(root: Element, tag: string): seq<map<string, string>>
  {
    Leaves(root, "cputune", tag)
  }

  function IoThreadPin(cpu: nat): map<string, string>
  {
    map["iothread" := "1", "cpuset" := Dec(cpu)]
  }

  function VcpuPin(vcpu: nat, cpu: nat): map<string, string>
  {
    map["vcpu" := Dec(vcpu), "cpuset" := Dec(cpu)]
  }

  /** vCPUs are numbered from `first` on, in the order of the CPUs. */
  function VcpuPins(cpus: seq<nat>, first: nat): (r: seq<map<string, string>>)
    ensures |r| == |cpus| && forall k :: 0 <= k < |cpus| ==> r[k] == VcpuPin(first + k, cpus[k])
  {
    if |cpus| == 0 then [] else [VcpuPin(first, cpus[0])] + VcpuPins(cpus[1..], first + 1)
  }

  /** The pins a machine gets for its group: the I/O thread on the first CPU, vCPUs 0, 1, ... on the others. */
  function PinsFor(cpus: seq<nat>): (r: seq<map<string, string>>)
    requires |cpus| > 0
    ensures |r| == |cpus| && r[0] == IoThreadPin(cpus[0])
    ensures forall k :: 1 <= k < |cpus| ==> r[k] == VcpuPin(k - 1, cpus[k])
  {
    [IoThreadPin(cpus[0])] + VcpuPins(cpus[1..], 0)
  }

  /** The first pin is for I/O thread 1 and every later one for the vCPU before its position; each names
      its host CPU, all in decimal. */
  lemma {:induction false} PinsName(cpus: seq<nat>, k: nat)
    requires k < |cpus|
    ensures var pin := PinsFor(cpus)[k];
            && "cpuset" in pin && FromDec(pin["cpuset"]) == cpus[k]
            && (k == 0 <==> "iothread" in pin) && (k == 0 ==> pin["iothread"] == "1")
            && (k > 0 <==> "vcpu" in pin) && (k > 0 ==> FromDec(pin["vcpu"]) == k - 1)
            && |pin| == 2
  {
    hide FromDec, Dec, VcpuPins;
    DecDenotes(cpus[k]);
    var pin := PinsFor(cpus)[k];
    if k > 0 {
      DecDenotes(k - 1);
      assert pin.Keys == {"vcpu", "cpuset"};
    } else {
      assert pin.Keys == {"iothread", "cpuset"};
    }
  }

  /** The description has gained exactly the pins for a group, behind the ones it had. */
  ghost predicate Bound(before: Element, after: Element, cpus: seq<nat>)
  {
    && |cpus| > 0
    && Pins(after, "iothreadpin") == Pins(before, "iothreadpin") + PinsFor(cpus)[..1]
    && Pins(after, "vcpupin") == Pins(before, "vcpupin") + PinsFor(cpus)[1..]
  }

  /** Pins the I/O thread to the first CPU and the vCPUs to the others; false for fewer than two CPUs. */
  method BindCpuids(vm: VirtXml, cpus: seq<nat>) returns (ok: bool)
    requires Agrees(vm.View())
    modifies vm`root
    ensures Agrees(vm.View()) && ok == (|cpus| > 1)
    ensures !ok ==> vm.root == old(vm.root)
    ensures ok ==> Bound(old(vm.root), vm.root, cpus)
  {
    hide Agrees, Leaves, Add, Apart, VcpuPins, Dec;
    if |cpus| <= 1 {
      return false;
    }
    AdditionsApart("iothreadpin", "", true, IoThreadPin(cpus[0]));
    LeafAdded(vm.root, "cputune", "iothreadpin", IoThreadPin(cpus[0]), "iothreadpin");
    LeafAdded(vm.root, "cputune", "iothreadpin", IoThreadPin(cpus[0]), "vcpupin");
    vm.AddNewElement(["cputune", "iothreadpin"], IoThreadPin(cpus[0]), true);
    var vcpus := cpus[1..];
    for k := 0 to |vcpus|
      invariant Agrees(vm.View())
      invariant Pins(vm.root, "iothreadpin") == Pins(old(vm.root), "iothreadpin") + [IoThreadPin(cpus[0])]
      invariant Pins(vm.root, "vcpupin") == Pins(old(vm.root), "vcpupin") + VcpuPins(vcpus, 0)[..k]
    {
      var pin := VcpuPin(k, vcpus[k]);
      AdditionsApart("vcpupin", "", true, pin);
      LeafAdded(vm.root, "cputune", "vcpupin", pin, "iothreadpin");
      LeafAdded(vm.root, "cputune", "vcpupin", pin, "vcpupin");
      vm.AddNewElement(["cputune", "vcpupin"], pin, true);
      assert VcpuPins(vcpus, 0)[..k + 1] == VcpuPins(vcpus, 0)[..k] + [pin];
    }
    assert VcpuPins(vcpus, 0)[..|vcpus|] == VcpuPins(vcpus, 0);
    assert PinsFor(cpus)[..1] == [IoThreadPin(cpus[0])] && PinsFor(cpus)[1..] == VcpuPins(vcpus, 0);
    return true;
  }

  /** The host CPU a pin names. */
  function CpuOf(pin: map<string, string>): Option<string>
  {
    if "cpuset" in pin then Some(pin["cpuset"]) else None
  }

  /** Of all pins the machines get for their groups, no two name the same host CPU. */
  ghost predicate NoneShared(groups: seq<seq<nat>>, width: nat)
  {
    && (forall i :: 0 <= i < |groups| ==> |groups[i]| == width > 0)
    && (forall i, k, j, l :: 0 <= i < |groups| && 0 <= k < width && 0 <= j < |groups| && 0 <= l < width ==>
          (CpuOf(PinsFor(groups[i])[k]) == CpuOf(PinsFor(groups[j])[l]) <==> i == j && k == l))
  }

  /** Over a duplicate-free host list, the pins of all machines, I/O threads and vCPUs alike, use each
      host CPU at most once. */
  lemma {:induction false} PinsNeverShare(groups: seq<seq<nat>>, cpus: seq<nat>, width: nat)
    requires Distinct(cpus) && AllStrided(groups, cpus, width) && width > 0
    ensures NoneShared(groups, width)
  {
    hide Dec, PinsFor, CpuOf, Distinct;
    assert forall i :: 0 <= i < |groups| ==> |groups[i]| == width;
    forall i, k, j, l | 0 <= i < |groups| && 0 <= k < width && 0 <= j < |groups| && 0 <= l < width
      ensures CpuOf(PinsFor(groups[i])[k]) == CpuOf(PinsFor(groups[j])[l]) <==> i == j && k == l
    {
      PinNames(groups[i], k);
      PinNames(groups[j], l);
      if Dec(groups[i][k]) == Dec(groups[j][l]) {
        DecInjective(groups[i][k], groups[j][l]);
        DealtOnce(groups, cpus, width, i, k, j, l);
      }
    }
  }

  lemma {:induction false} PinNames(cpus: seq<nat>, k: nat)
    requires k < |cpus|
    ensures CpuOf(PinsFor(cpus)[k]) == Some(Dec(cpus[k]))
  {
    hide Dec, PinsFor;
  }

  /** Deals the host's CPUs out and binds every machine to its group. It fails, with nothing bound, when
      the list is too short or a machine would get no CPU for a vCPU. */
  method BindMachines(vms: seq<VirtXml>, cpus: seq<nat>, coreNum: nat) returns (ok: bool, groups: seq<seq<nat>>)
    requires forall i, j :: 0 <= i < j < |vms| ==> vms[i] != vms[j]
    requires forall vm :: vm in vms ==> Agrees(vm.View())
    modifies vms
    ensures forall vm :: vm in vms ==> Agrees(vm.View()) && vm.cached == old(vm.cached)
    ensures ok <==> |cpus| > |vms| * (coreNum + 1) && (coreNum > 0 || vms == [])
    ensures !ok ==> forall vm :: vm in vms ==> vm.root == old(vm.root)
    ensures ok ==> |groups| == |vms| && AllStrided(groups, cpus, coreNum + 1)
    ensures ok ==> forall i :: 0 <= i < |vms| ==> Bound(old(vms[i].root), vms[i].root, groups[i])
    ensures ok && Distinct(cpus) ==> NoneShared(groups, coreNum + 1)
  {
    hide Agrees, Bound, Pins, NoneShared, Distinct;
    ok, groups := GetCpuidsGroup(cpus, |vms|, coreNum);
    if !ok {
      return;
    }
    for i := 0 to |vms|
      invariant forall vm :: vm in vms ==> Agrees(vm.View()) && vm.cached == old(vm.cached)
      invariant forall j :: 0 <= j < i ==> Bound(old(vms[j].root), vms[j].root, groups[j])
      invariant forall j :: i <= j < |vms| ==> vms[j].root == old(vms[j].root)
      invariant i > 0 ==> coreNum > 0
    {
      ok := BindCpuids(vms[i], groups[i]);
      if !ok {
        return;
      }
    }
    if Distinct(cpus) {
      PinsNeverShare(groups, cpus, coreNum + 1);
    }
    return true, groups;
  }
}
