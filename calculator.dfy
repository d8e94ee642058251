/** The whole of subnet.py from the argument text to the figures it reports:
    parsing (lines 55-81), the /32 short-circuit (lines 84-87), the derived
    quantities (lines 103-179), the enumeration loop (lines 181-202) and the
    verdict (lines 210-225). What the script prints is left to the caller. */
module Calculator {
  import opened Arith
  import opened Address
  import opened Cidr
  import opened Subnet
  import opened Validity

  /** What the script reports for an accepted argument. */
  datatype Report =
    | SingleAddress(address: seq<int>)   // a /32: "means IP address" (line 86)
    | Subnetted(
        address: seq<int>,
        prefix: int,
        mask: seq<int>,
        hostOctet: int,
        upstream: seq<int>,
        totalIps: int,
        subnets: int,
        ipsPerSubnet: int,
        networkIds: seq<seq<int>>,
        broadcasts: seq<seq<int>>,
        subnetIndex: int,
        verdict: Verdict)

  /** The report for an address and a prefix below 32. */
  function Summary(ip: seq<int>, cidr: int): (r: Report)
    requires IsAddress(ip) && 1 <= cidr <= 31
    ensures r.Subnetted?
  {
    Subnetted(ip, cidr, MaskOctets(cidr), HostOctet(cidr), UpstreamNetwork(ip, cidr),
      TotalIps(cidr), Subnets(cidr), TotalIps(cidr) / Subnets(cidr),
      NetworkIds(ip, cidr), BroadcastIds(ip, cidr), SubnetIndex(ip, cidr),
      ClassifySupplied(ip, cidr))
  }

  /** The script as a function of its argument. */
  function Calculate(arg: string): Result<Report>
  {
    match Parse(arg)
    case Err(e) => Err(e)
    case Ok(c) => if c.prefix == 32 then Ok(SingleAddress(c.ip)) else Ok(Summary(c.ip, c.prefix))
  }

  /** The script as it runs: parse, stop on a /32, compute, loop, classify. */
  method Run(arg: string) returns (r: Result<Report>)
    ensures r == Calculate(arg)
  {
    var parsed := ParseArgument(arg);
    if parsed.Err? {
      return Err(parsed.error);
    }
    var ip, cidr := parsed.value.ip, parsed.value.prefix;
    if cidr == 32 {
      return Ok(SingleAddress(ip));
    }
    var hostOctet := HostOctet(cidr);
    var mask := MaskOctets(cidr);
    var subnets: int := Subnets(cidr);
    var ipPerSubnet: int := IpPerSubnet(cidr);
    var totalIps: int := ipPerSubnet * subnets;
    var upstream := UpstreamNetwork(ip, cidr);
    var subnetIds, broadcasts, subnetIndex := Enumerate(ip, cidr);
    EntryAt(ip, cidr, subnetIndex);
    var ipPerSub: int := totalIps / subnets;
    var verdict := Classify(ip, subnetIds, broadcasts, subnetIndex);
    return Ok(Subnetted(ip, cidr, mask, hostOctet, upstream, totalIps, subnets, ipPerSub,
      subnetIds, broadcasts, subnetIndex, verdict));
  }

  /** A /32 reports the address and nothing else, and only a /32 does. */
  lemma ShortCircuit(arg: string)
    ensures Calculate(arg).Ok? && Calculate(arg).value.SingleAddress?
      <==> Parse(arg).Ok? && Parse(arg).value.prefix == 32
    ensures Calculate(arg).Ok? && Calculate(arg).value.SingleAddress?
      ==> Calculate(arg).value.address == Parse(arg).value.ip
  {
  }

  /** The script stops exactly where parsing stops, for the same reason. */
  lemma Failures(arg: string)
    ensures Calculate(arg).Err? <==> Parse(arg).Err?
    ensures Calculate(arg).Err? ==> Calculate(arg).error == Parse(arg).error
  {
  }

  /** The figures of a report agree with each other: the counts multiply
      out, the lists have one entry per subnet, the supplied address lies in
      the subnet the index names, and the verdict is the address's place in
      that subnet. */
  lemma SummaryConsistent(ip: seq<int>, cidr: int)
    requires IsAddress(ip) && 1 <= cidr <= 31
    ensures var r := Summary(ip, cidr);
      && IsAddress(r.mask) && ValueOf(r.mask) == Pow2(32) - Pow2(32 - cidr)
      && r.ipsPerSubnet == IpPerSubnet(cidr) && r.ipsPerSubnet * r.subnets == r.totalIps
      && |r.networkIds| == |r.broadcasts| == r.subnets
      && 0 <= r.subnetIndex < r.subnets
      && IsAddress(r.networkIds[r.subnetIndex]) && IsAddress(r.broadcasts[r.subnetIndex])
      && ValueOf(r.networkIds[r.subnetIndex]) <= ValueOf(ip) <= ValueOf(r.broadcasts[r.subnetIndex])
      && (r.verdict == IsNetworkId <==> ValueOf(ip) % r.ipsPerSubnet == 0)
      && (r.verdict == IsBroadcastId <==> ValueOf(ip) % r.ipsPerSubnet == r.ipsPerSubnet - 1)
  {
    MaskValue(cidr);
    Counts(cidr);
    var k := SubnetIndex(ip, cidr);
    SuppliedInOnePartition(ip, cidr);
    EntryAt(ip, cidr, k);
    SuppliedVerdict(ip, cidr);
  }

  /** The /19 mask of the script's comment (lines 112-113). */
  lemma MaskOf19()
    ensures MaskOctets(19) == [255, 255, 224, 0]
  {
    MaskOctetsFormula(19);
    Pow2Octet();
    assert Pow2(5) == 32;
    var m := MaskOctets(19);
    assert m[0] == 255 && m[1] == 255 && m[2] == 224 && m[3] == 0;
  }

  /** The /27 passes of the script's comment (lines 169-177): host octets
      0, 32, ..., 224 for the network ids and 31, 63, ..., 255 for the
      broadcast ids. */
  lemma PassesOf27(ip: seq<int>)
    requires IsAddress(ip)
    ensures Subnets(27) == 8 && IdPerSubnet(27) == 32 && HostOctet(27) == 4
    ensures forall j :: 0 <= j < 8 ==>
      NetworkIds(ip, 27)[j][3] == 32 * j && BroadcastIds(ip, 27)[j][3] == 32 * j + 31
  {
    assert Pow2(3) == 8 && Pow2(5) == 32;
    forall j | 0 <= j < 8
      ensures NetworkIds(ip, 27)[j][3] == 32 * j && BroadcastIds(ip, 27)[j][3] == 32 * j + 31
    {
      HostOctetAt(ip, 27, j);
    }
  }

  /** 172.16.160.0/19, the script's first usage example, is a network id. */
  lemma FirstUsageExample()
    ensures Summary([172, 16, 160, 0], 19).verdict == IsNetworkId
  {
    Pow2Octet();
    Pow2Octets(5);
    assert Pow2(5) == 32;
    ValueOf4([172, 16, 160, 0]);
    VerdictOf([172, 16, 160, 0], 19, 2886770688, 8192);
  }

  /** 192.168.1.21/24, the script's second usage example, is a valid host. */
  lemma SecondUsageExample()
    ensures Summary([192, 168, 1, 21], 24).verdict == IsValidHost
  {
    Pow2Octet();
    ValueOf4([192, 168, 1, 21]);
    VerdictOf([192, 168, 1, 21], 24, 3232235797, 256);
  }

  /** 10.0.0.31/27 is the broadcast id of its subnet. */
  lemma BroadcastExample()
    ensures Summary([10, 0, 0, 31], 27).verdict == IsBroadcastId
  {
    assert Pow2(5) == 32;
    ValueOf4([10, 0, 0, 31]);
    VerdictOf([10, 0, 0, 31], 27, 167772191, 32);
  }

  /** The verdict for a concrete address, from its 32-bit value `v` and
      the subnet size `s`. */
  lemma VerdictOf(ip: seq<int>, cidr: int, v: int, s: int)
    requires IsAddress(ip) && 1 <= cidr <= 31
    requires ValueOf(ip) == v && IpPerSubnet(cidr) == s
    ensures ClassifySupplied(ip, cidr) == IsNetworkId <==> v % s == 0
    ensures ClassifySupplied(ip, cidr) == IsBroadcastId <==> v % s == s - 1
  {
    SuppliedVerdict(ip, cidr);
  }

  /** What the script computes for the rendering of a valid argument. */
  lemma CalculateRendered(c: Cidr)
    requires Valid(c)
    ensures c.prefix == 32 ==> Calculate(Render(c)) == Ok(SingleAddress(c.ip))
    ensures c.prefix < 32 ==> Calculate(Render(c)) == Ok(Summary(c.ip, c.prefix))
  {
    RenderParse(c);
  }
}
