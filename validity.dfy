/** Lines 210 and 220-225 of subnet.py: is the supplied address the network
    id of its subnet, its broadcast id, or a host address? The script
    compares dotted strings; the model proves that this is comparing octets,
    and that it is the same as asking where the address falls inside its
    partition of the 32-bit address space. */
module Validity {
  import opened Arith
  import opened Text
  import opened Address
  import opened Subnet

  datatype Verdict = IsNetworkId | IsBroadcastId | IsValidHost

  /** Lines 220-225: `ip_address` against `subnet_ids[subnet_index]`, then
      against `broadcasts[subnet_index]`, all three in dotted form. */
  function Classify(ip: seq<int>, ids: seq<seq<int>>, bcs: seq<seq<int>>, index: int): (v: Verdict)
    requires |ip| >= 1 && 0 <= index < |ids| && index < |bcs|
    requires |ids[index]| >= 1 && |bcs[index]| >= 1
    ensures v == IsNetworkId <==> ip == ids[index]
    ensures v == IsBroadcastId <==> ip != ids[index] && ip == bcs[index]
  {
    DottedInjective(ip, ids[index]);
    DottedInjective(ip, bcs[index]);
    var address := Dotted(ip);
    if address == Dotted(ids[index]) then IsNetworkId
    else if address == Dotted(bcs[index]) then IsBroadcastId
    else IsValidHost
  }

  /** The verdict on the lists the loop builds, for the index it finds. */
  function ClassifySupplied(ip: seq<int>, cidr: int): Verdict
    requires IsAddress(ip) && 1 <= cidr <= 31
  {
    OnePassMatches(ip, cidr);
    Classify(ip, NetworkIds(ip, cidr), BroadcastIds(ip, cidr), SubnetIndex(ip, cidr))
  }

  /** The supplied address is its subnet's network id exactly when its
      32-bit value is a multiple of the subnet size, and the broadcast id
      exactly when it is one below the next multiple. */
  lemma SuppliedVerdict(ip: seq<int>, cidr: int)
    requires IsAddress(ip) && 1 <= cidr <= 31
    ensures ClassifySupplied(ip, cidr) == IsNetworkId <==> ValueOf(ip) % IpPerSubnet(cidr) == 0
    ensures ClassifySupplied(ip, cidr) == IsBroadcastId
      <==> ValueOf(ip) % IpPerSubnet(cidr) == IpPerSubnet(cidr) - 1
  {
    var k := SubnetIndex(ip, cidr);
    OnePassMatches(ip, cidr);
    EntryAt(ip, cidr, k);
    OffsetInPartition(ip, cidr);
    ValueInjective(ip, NetworkId(ip, cidr, k));
    ValueInjective(ip, BroadcastId(ip, cidr, k));
  }

  /** Where the supplied address falls inside its partition: its offset
      from the network id is its remainder modulo the subnet size. */
  lemma OffsetInPartition(ip: seq<int>, cidr: int)
    requires IsAddress(ip) && 1 <= cidr <= 31
    ensures 0 <= SubnetIndex(ip, cidr) < Subnets(cidr)
    ensures var k, s := SubnetIndex(ip, cidr), IpPerSubnet(cidr);
      && s >= 2
      && IsAddress(NetworkId(ip, cidr, k)) && IsAddress(BroadcastId(ip, cidr, k))
      && ValueOf(BroadcastId(ip, cidr, k)) == ValueOf(NetworkId(ip, cidr, k)) + s - 1
      && ValueOf(ip) % s == ValueOf(ip) - ValueOf(NetworkId(ip, cidr, k))
  {
    var k, s := SubnetIndex(ip, cidr), IpPerSubnet(cidr);
    SuppliedInOnePartition(ip, cidr);
    PartitionSize(ip, cidr, k);
    var q := NetworkIdMultiple(ip, cidr, k);
    var v, lo, hi := ValueOf(ip), ValueOf(NetworkId(ip, cidr, k)), ValueOf(BroadcastId(ip, cidr, k));
    assert lo <= v <= hi;
    DivUnique(v, s, q);
  }

  /** Every network id is a multiple of the subnet size. */
  lemma NetworkIdMultiple(ip: seq<int>, cidr: int, j: int) returns (q: int)
    requires IsAddress(ip) && 1 <= cidr <= 31 && 0 <= j < Subnets(cidr)
    ensures IsAddress(NetworkId(ip, cidr, j))
    ensures ValueOf(NetworkId(ip, cidr, j)) == q * IpPerSubnet(cidr)
  {
    var h, d, n := HostOctet(cidr), IdPerSubnet(cidr), Subnets(cidr);
    var p := Pow2(8 * (4 - h));
    var a := ValueOf(UpstreamId(ip, cidr));
    PartitionValues(ip, cidr, j);
    HostOctetsOf(ip, cidr, j);
    UpstreamValue(ip, cidr);
    StepTimesCount(cidr);
    StepSpan(cidr);
    q := a * n + j;
    MultipleArith(ValueOf(NetworkId(ip, cidr, j)), ValueOf(UpstreamNetwork(ip, cidr)), a,
      NetworkId(ip, cidr, j)[h - 1], j, d, n, p, IpPerSubnet(cidr));
  }

  lemma MultipleArith(v: int, u: int, a: int, x: int, j: int, d: int, n: int, p: int, s: int)
    requires v == u + x * p && x == j * d && u == a * 256 * p
    requires d * n == 256 && s == d * p
    ensures v == (a * n + j) * s
  {
    assert (a * n + j) * s == a * n * s + j * s;
    assert a * n * s == a * (d * n) * p;
    assert j * s == x * p;
  }

  /** Below a /32 a subnet's network id and broadcast id differ, so the
      three verdicts are three different cases. */
  lemma NetworkNotBroadcast(ip: seq<int>, cidr: int, j: int)
    requires IsAddress(ip) && 1 <= cidr <= 31 && 0 <= j < Subnets(cidr)
    ensures NetworkId(ip, cidr, j) != BroadcastId(ip, cidr, j)
  {
    PartitionSize(ip, cidr, j);
  }
}
