/** The subnet arithmetic of subnet.py for a prefix in [1, 31] (a /32 has
    left the script before any of this runs): host octet, mask, counts,
    upstream network and the enumeration of every subnet's network and
    broadcast address. */
module Subnet {
  import opened Arith
  import opened Address

  // ---------------------------------------------------------------------
  // Host octet (line 103)
  // ---------------------------------------------------------------------

  /** `(cidr // 8) + 1`: the 1-based index of the octet the subnetting
      bits live in. */
  function HostOctet(cidr: int): (h: int)
    requires 1 <= cidr <= 31
    ensures 1 <= h <= 4
  {
    cidr / 8 + 1
  }

  // ---------------------------------------------------------------------
  // Subnet mask (lines 115-116), built as the script builds it: a text of
  // `cidr` ones and `32 - cidr` zeros read back eight bits at a time.
  // ---------------------------------------------------------------------

  predicate IsBinary(s: string) {
    forall i :: 0 <= i < |s| ==> s[i] == '0' || s[i] == '1'
  }

  /** `("1" * cidr) + ("0" * (32 - cidr))` */
  function MaskBits(cidr: int): (bits: string)
    requires 0 <= cidr <= 32
    ensures |bits| == 32 && IsBinary(bits)
    ensures forall i :: 0 <= i < 32 ==> (bits[i] == '1' <==> i < cidr)
  {
    Repeat('1', cidr) + Repeat('0', 32 - cidr)
  }

  /** `int(bits, 2)` */
  function BinaryValue(bits: string): nat
    requires IsBinary(bits)
  {
    if bits == [] then 0
    else BinaryValue(bits[..|bits| - 1]) * 2 + (if bits[|bits| - 1] == '1' then 1 else 0)
  }

  /** `int(bits[8k : 8k+8], 2)` */
  function MaskChunk(bits: string, k: nat): nat
    requires |bits| == 32 && IsBinary(bits) && k < 4
  {
    BinaryValue(bits[8 * k..8 * k + 8])
  }

  /** `[int(bits[i : i+8], 2) for i in range(0, 32, 8)]` */
  function Chunks(bits: string): (octets: seq<int>)
    requires |bits| == 32 && IsBinary(bits)
    ensures |octets| == 4
  {
    seq(4, k requires 0 <= k < 4 => MaskChunk(bits, k))
  }

  /** The subnet mask as four octets, built from its bit text. */
  function MaskOctets(cidr: int): (mask: seq<int>)
    requires 0 <= cidr <= 32
    ensures |mask| == 4
  {
    Chunks(MaskBits(cidr))
  }

  // ---------------------------------------------------------------------
  // Counts (lines 137, 150-151, 179, 213)
  // ---------------------------------------------------------------------

  /** `2 ** (cidr % 8)` */
  function Subnets(cidr: int): nat
    requires 1 <= cidr <= 31
  {
    Pow2(cidr % 8)
  }

  /** `2 ** (32 - cidr)` */
  function IpPerSubnet(cidr: int): nat
    requires 1 <= cidr <= 31
  {
    Pow2(32 - cidr)
  }

  /** `ip_per_subnet * subnets` */
  function TotalIps(cidr: int): int
    requires 1 <= cidr <= 31
  {
    IpPerSubnet(cidr) * Subnets(cidr)
  }

  /** `2 ** (8 - (cidr % 8))`: how far the host octet advances per subnet. */
  function IdPerSubnet(cidr: int): nat
    requires 1 <= cidr <= 31
  {
    Pow2(8 - cidr % 8)
  }

  // ---------------------------------------------------------------------
  // Upstream network (lines 162 and 212)
  // ---------------------------------------------------------------------

  /** `ip[0 : host_octet-1]`: the octets that lie wholly under the mask. */
  function UpstreamId(ip: seq<int>, cidr: int): (up: seq<int>)
    requires IsAddress(ip) && 1 <= cidr <= 31
    ensures |up| == HostOctet(cidr) - 1 && AllOctets(up)
  {
    ip[..HostOctet(cidr) - 1]
  }

  /** `upstream_id + [0] * (5 - host_octet)`: the upstream network as an
      address. */
  function UpstreamNetwork(ip: seq<int>, cidr: int): (net: seq<int>)
    requires IsAddress(ip) && 1 <= cidr <= 31
    ensures IsAddress(net)
  {
    UpstreamId(ip, cidr) + Repeat(0, 5 - HostOctet(cidr))
  }

  // ---------------------------------------------------------------------
  // Enumeration (lines 179-202)
  // ---------------------------------------------------------------------

  /** `upstream_id + [network_id] + [0] * (4 - host_octet)` for the `j`-th
      pass, where `network_id` is `j * id_per_subnet`. */
  function NetworkId(ip: seq<int>, cidr: int, j: int): (net: seq<int>)
    requires IsAddress(ip) && 1 <= cidr <= 31
    ensures |net| == 4
  {
    UpstreamId(ip, cidr) + [j * IdPerSubnet(cidr)] + Repeat(0, 4 - HostOctet(cidr))
  }

  /** `upstream_id + [broadcast] + [255] * (4 - host_octet)` for the `j`-th
      pass, where `broadcast` is `network_id + id_per_subnet - 1`. */
  function BroadcastId(ip: seq<int>, cidr: int, j: int): (bc: seq<int>)
    requires IsAddress(ip) && 1 <= cidr <= 31
    ensures |bc| == 4
  {
    UpstreamId(ip, cidr) + [j * IdPerSubnet(cidr) + IdPerSubnet(cidr) - 1]
      + Repeat(255, 4 - HostOctet(cidr))
  }

  /** The list `subnet_ids` after `k` passes of the loop. */
  function NetworkIdsTo(ip: seq<int>, cidr: int, k: nat): (ids: seq<seq<int>>)
    requires IsAddress(ip) && 1 <= cidr <= 31
    ensures |ids| == k
  {
    seq(k, j => NetworkId(ip, cidr, j))
  }

  /** The list `broadcasts` after `k` passes of the loop. */
  function BroadcastIdsTo(ip: seq<int>, cidr: int, k: nat): (bcs: seq<seq<int>>)
    requires IsAddress(ip) && 1 <= cidr <= 31
    ensures |bcs| == k
  {
    seq(k, j => BroadcastId(ip, cidr, j))
  }

  /** The list `subnet_ids` once the loop has run. */
  function NetworkIds(ip: seq<int>, cidr: int): (ids: seq<seq<int>>)
    requires IsAddress(ip) && 1 <= cidr <= 31
    ensures |ids| == Subnets(cidr)
  {
    NetworkIdsTo(ip, cidr, Subnets(cidr))
  }

  /** The list `broadcasts` once the loop has run. */
  function BroadcastIds(ip: seq<int>, cidr: int): (bcs: seq<seq<int>>)
    requires IsAddress(ip) && 1 <= cidr <= 31
    ensures |bcs| == Subnets(cidr)
  {
    BroadcastIdsTo(ip, cidr, Subnets(cidr))
  }

  /** The pass whose host-octet range holds the supplied address's host
      octet: the value `subnet_index` ends with. */
  function SubnetIndex(ip: seq<int>, cidr: int): int
    requires IsAddress(ip) && 1 <= cidr <= 31
  {
    ip[HostOctet(cidr) - 1] / IdPerSubnet(cidr)
  }

  /** The loop of lines 181-202: one pass per subnet, `i` running over
      `range(0, 256, id_per_subnet)`. */
  method Enumerate(ip: seq<int>, cidr: int)
    returns (subnetIds: seq<seq<int>>, broadcasts: seq<seq<int>>, subnetIndex: int)
    requires IsAddress(ip) && 1 <= cidr <= 31
    ensures subnetIds == NetworkIds(ip, cidr)
    ensures broadcasts == BroadcastIds(ip, cidr)
    ensures subnetIndex == SubnetIndex(ip, cidr)
    ensures 0 <= subnetIndex < |subnetIds| == |broadcasts|
  {
    var hostOctet := HostOctet(cidr);
    var upstreamId := UpstreamId(ip, cidr);
    var idPerSubnet := IdPerSubnet(cidr);
    var x := ip[hostOctet - 1];
    var zeros, ones := Repeat(0, 4 - hostOctet), Repeat(255, 4 - hostOctet);
    subnetIds := [];
    broadcasts := [];
    subnetIndex := -1;
    var step := 0;
    var i := 0;
    EnumerationStart(ip, cidr);
    while i < 256
      invariant EnumerationAt(ip, cidr, step, i, subnetIds, broadcasts, subnetIndex)
      decreases 256 - i
    {
      EnumerationStep(ip, cidr, step, i, subnetIds, broadcasts, subnetIndex);
      var networkId := i;
      var broadcast := networkId + idPerSubnet - 1;
      subnetIds := subnetIds + [upstreamId + [networkId] + zeros];
      broadcasts := broadcasts + [upstreamId + [broadcast] + ones];
      if x >= networkId && x <= broadcast {
        subnetIndex := step;
      }
      step := step + 1;
      i := i + idPerSubnet;
    }
    EnumerationDone(ip, cidr, step, i, subnetIds, broadcasts, subnetIndex);
  }

  /** The state of the loop after `step` passes: `i` is the next network id,
      the lists hold the first `step` network and broadcast ids, and
      `subnet_index` is set once a pass has covered the host octet. */
  predicate EnumerationAt(ip: seq<int>, cidr: int, step: int, i: int,
                          ids: seq<seq<int>>, bcs: seq<seq<int>>, index: int)
    requires IsAddress(ip) && 1 <= cidr <= 31
  {
    var x, d := ip[HostOctet(cidr) - 1], IdPerSubnet(cidr);
    && 0 <= step <= Subnets(cidr)
    && i == step * d
    && ids == NetworkIdsTo(ip, cidr, step)
    && bcs == BroadcastIdsTo(ip, cidr, step)
    && index == if x < i then x / d else -1
  }

  lemma EnumerationStart(ip: seq<int>, cidr: int)
    requires IsAddress(ip) && 1 <= cidr <= 31
    ensures EnumerationAt(ip, cidr, 0, 0, [], [], -1)
  {
    assert NetworkIdsTo(ip, cidr, 0) == [];
    assert BroadcastIdsTo(ip, cidr, 0) == [];
  }

  /** One pass of the loop keeps `EnumerationAt`. */
  lemma EnumerationStep(ip: seq<int>, cidr: int, step: int, i: int,
                        ids: seq<seq<int>>, bcs: seq<seq<int>>, index: int)
    requires IsAddress(ip) && 1 <= cidr <= 31
    requires EnumerationAt(ip, cidr, step, i, ids, bcs, index) && i < 256
    ensures var x, d, h := ip[HostOctet(cidr) - 1], IdPerSubnet(cidr), HostOctet(cidr);
      EnumerationAt(ip, cidr, step + 1, i + d,
        ids + [UpstreamId(ip, cidr) + [i] + Repeat(0, 4 - h)],
        bcs + [UpstreamId(ip, cidr) + [i + d - 1] + Repeat(255, 4 - h)],
        if x >= i && x <= i + d - 1 then step else index)
  {
    var x, d := ip[HostOctet(cidr) - 1], IdPerSubnet(cidr);
    StepTimesCount(cidr);
    SubnetCountBounds(cidr);
    StepBound(step, d, Subnets(cidr));
    OnePassMore(ip, cidr, step, i, i + d - 1);
    IndexStep(x, d, step, i, index);
    MulAddOne(step, d);
  }

  /** When the loop stops it has made `subnets` passes and found the pass
      that holds the host octet. */
  lemma EnumerationDone(ip: seq<int>, cidr: int, step: int, i: int,
                        ids: seq<seq<int>>, bcs: seq<seq<int>>, index: int)
    requires IsAddress(ip) && 1 <= cidr <= 31
    requires EnumerationAt(ip, cidr, step, i, ids, bcs, index) && i >= 256
    ensures ids == NetworkIds(ip, cidr) && bcs == BroadcastIds(ip, cidr)
    ensures index == SubnetIndex(ip, cidr)
    ensures 0 <= index < |ids| == |bcs|
  {
    var x, d := ip[HostOctet(cidr) - 1], IdPerSubnet(cidr);
    StepTimesCount(cidr);
    SubnetCountBounds(cidr);
    StepDone(step, d, Subnets(cidr));
    DivBounds(x, d);
    StepBound(x / d, d, Subnets(cidr));
  }

  /** One more pass appends pass `k`'s network and broadcast ids. */
  lemma OnePassMore(ip: seq<int>, cidr: int, k: nat, networkId: int, broadcast: int)
    requires IsAddress(ip) && 1 <= cidr <= 31
    requires networkId == k * IdPerSubnet(cidr) && broadcast == networkId + IdPerSubnet(cidr) - 1
    ensures NetworkIdsTo(ip, cidr, k) + [UpstreamId(ip, cidr) + [networkId] + Repeat(0, 4 - HostOctet(cidr))]
      == NetworkIdsTo(ip, cidr, k + 1)
    ensures BroadcastIdsTo(ip, cidr, k) + [UpstreamId(ip, cidr) + [broadcast] + Repeat(255, 4 - HostOctet(cidr))]
      == BroadcastIdsTo(ip, cidr, k + 1)
  {
    assert NetworkIdsTo(ip, cidr, k + 1) == NetworkIdsTo(ip, cidr, k) + [NetworkId(ip, cidr, k)];
    assert BroadcastIdsTo(ip, cidr, k + 1) == BroadcastIdsTo(ip, cidr, k) + [BroadcastId(ip, cidr, k)];
  }

  /** How one pass moves `subnet_index`: it takes the pass number exactly
      when the host octet falls in the pass's range, and that number is the
      quotient of the host octet by the step. */
  lemma IndexStep(x: int, d: int, step: int, i: int, index: int)
    requires d > 0 && 0 <= x && 0 <= step && i == step * d
    requires index == if x < i then x / d else -1
    ensures (if x >= i && x <= i + d - 1 then step else index) == if x < i + d then x / d else -1
  {
    if x >= i && x <= i + d - 1 {
      DivUnique(x, d, step);
    }
  }

  /** A pass below `subnets` starts below 256. */
  lemma StepBound(step: int, d: nat, n: nat)
    requires d > 0 && n * d == 256 && 0 <= step
    ensures step * d < 256 <==> step < n
  {
    if step < n {
      MulLeft(step + 1, n, d);
    } else {
      MulLeft(n, step, d);
    }
  }

  /** When the loop stops, it has made exactly `subnets` passes. */
  lemma StepDone(step: int, d: nat, n: nat)
    requires d > 0 && n * d == 256 && 0 <= step <= n && step * d >= 256
    ensures step == n
  {
    StepBound(step, d, n);
  }

  // ---------------------------------------------------------------------
  // Properties of the mask
  // ---------------------------------------------------------------------

  /** Appending bits shifts the value left by their number. */
  lemma {:induction false} BinaryConcat(x: string, y: string)
    requires IsBinary(x) && IsBinary(y)
    ensures BinaryValue(x + y) == BinaryValue(x) * Pow2(|y|) + BinaryValue(y)
  {
    if y == [] {
      assert x + y == x;
    } else {
      var y' := y[..|y| - 1];
      assert (x + y)[..|x + y| - 1] == x + y';
      BinaryConcat(x, y');
      var b := if y[|y| - 1] == '1' then 1 else 0;
      assert y[..|y| - 1] == y';
      HornerStep(BinaryValue(x), Pow2(|y'|), BinaryValue(y'), 2, b);
    }
  }

  /** Appending eight bits shifts the value left by one octet. */
  lemma BinaryConcat8(x: string, y: string)
    requires IsBinary(x) && IsBinary(y) && |y| == 8
    ensures BinaryValue(x + y) == BinaryValue(x) * 256 + BinaryValue(y)
  {
    BinaryConcat(x, y);
    Pow2Octet();
  }

  /** `n` one-bits read as 2^n - 1, `n` zero-bits as 0. */
  lemma {:induction false} BinaryFill(n: nat)
    ensures BinaryValue(Repeat('1', n)) == Pow2(n) - 1
    ensures BinaryValue(Repeat('0', n)) == 0
  {
    if n > 0 {
      BinaryFill(n - 1);
      assert Repeat('1', n)[..n - 1] == Repeat('1', n - 1);
      assert Repeat('0', n)[..n - 1] == Repeat('0', n - 1);
    }
  }

  /** `a` ones followed by `b` zeros read as (2^a - 1) * 2^b, that is
      2^(a + b) - 2^b. */
  lemma OnesThenZeros(a: nat, b: nat)
    ensures BinaryValue(Repeat('1', a) + Repeat('0', b)) == Pow2(a + b) - Pow2(b)
  {
    var ones, zeros := Repeat('1', a), Repeat('0', b);
    BinaryConcat(ones, zeros);
    BinaryFill(a);
    BinaryFill(b);
    MulSubOne(BinaryValue(ones), Pow2(a), Pow2(b));
    Pow2Add(a, b);
  }

  /** The `k`-th eight bits of the mask text: the ones the prefix puts in
      that octet, then zeros. */
  lemma MaskChunkBits(cidr: int, k: nat)
    requires 0 <= cidr <= 32 && k < 4
    ensures var m := if cidr <= 8 * k then 0 else if cidr >= 8 * k + 8 then 8 else cidr - 8 * k;
      MaskBits(cidr)[8 * k..8 * k + 8] == Repeat('1', m) + Repeat('0', 8 - m)
  {
    var m := if cidr <= 8 * k then 0 else if cidr >= 8 * k + 8 then 8 else cidr - 8 * k;
    var chunk := MaskBits(cidr)[8 * k..8 * k + 8];
    var want := Repeat('1', m) + Repeat('0', 8 - m);
    assert |chunk| == |want| == 8;
    forall i | 0 <= i < 8 ensures chunk[i] == want[i] {
      assert chunk[i] == MaskBits(cidr)[8 * k + i];
    }
  }

  /** The value of the `k`-th mask octet, given the ones it holds. */
  lemma MaskOctetOnes(cidr: int, k: nat) returns (m: nat)
    requires 0 <= cidr <= 32 && k < 4
    ensures m == if cidr <= 8 * k then 0 else if cidr >= 8 * k + 8 then 8 else cidr - 8 * k
    ensures MaskOctets(cidr)[k] == 256 - Pow2(8 - m)
  {
    m := if cidr <= 8 * k then 0 else if cidr >= 8 * k + 8 then 8 else cidr - 8 * k;
    MaskChunkBits(cidr, k);
    OnesThenZerosOctet(m);
  }

  /** An octet of `m` one-bits then zero-bits reads as 256 - 2^(8 - m). */
  lemma OnesThenZerosOctet(m: nat)
    requires m <= 8
    ensures BinaryValue(Repeat('1', m) + Repeat('0', 8 - m)) == 256 - Pow2(8 - m)
  {
    OnesThenZeros(m, 8 - m);
    assert m + (8 - m) == 8;
    Pow2Octet();
  }

  /** Mask octet `k` is 255 below the prefix's octet, 256 - 2^(8 - cidr % 8)
      in it and 0 after it. */
  lemma MaskOctetsFormula(cidr: int)
    requires 0 <= cidr <= 32
    ensures forall k :: 0 <= k < 4 ==>
      MaskOctets(cidr)[k] ==
        if k < cidr / 8 then 255 else if k == cidr / 8 then 256 - Pow2(8 - cidr % 8) else 0
  {
    Pow2Octet();
    forall k | 0 <= k < 4
      ensures MaskOctets(cidr)[k] ==
        if k < cidr / 8 then 255 else if k == cidr / 8 then 256 - Pow2(8 - cidr % 8) else 0
    {
      var m := MaskOctetOnes(cidr, k);
      if k < cidr / 8 {
        assert m == 8;
      } else if k == cidr / 8 {
        assert m == cidr % 8;
      } else {
        assert m == 0;
      }
    }
  }

  /** Mask octets are octets. */
  lemma MaskIsAddress(cidr: int)
    requires 0 <= cidr <= 32
    ensures IsAddress(MaskOctets(cidr))
  {
    MaskOctetsFormula(cidr);
    if cidr < 32 {
      Pow2Monotone(8 - cidr % 8, 8);
      Pow2Octet();
    }
  }

  /** `n` bits read as a number below 2^n. */
  lemma {:induction false} BinaryRange(bits: string)
    requires IsBinary(bits)
    ensures BinaryValue(bits) < Pow2(|bits|)
  {
    if bits != [] {
      BinaryRange(bits[..|bits| - 1]);
    }
  }

  /** Reading 32 bits eight at a time and then as one big-endian number
      is reading them as one binary number. */
  lemma ChunkedValue(bits: string)
    requires |bits| == 32 && IsBinary(bits)
    ensures IsAddress(Chunks(bits)) && ValueOf(Chunks(bits)) == BinaryValue(bits)
  {
    var m := Chunks(bits);
    Pow2Octet();
    forall k | 0 <= k < 4 ensures IsOctet(m[k]) {
      BinaryRange(bits[8 * k..8 * k + 8]);
    }
    assert bits[..8] == bits[0..8];
    BinaryPrefix(bits, 16);
    BinaryPrefix(bits, 24);
    BinaryPrefix(bits, 32);
    assert bits[..32] == bits;
    ValueOf4(m);
  }

  /** The first `n` bits read as the first `n - 8` shifted by one octet,
      plus the next eight. */
  lemma BinaryPrefix(bits: string, n: int)
    requires IsBinary(bits) && 8 <= n <= |bits|
    ensures BinaryValue(bits[..n]) == BinaryValue(bits[..n - 8]) * 256 + BinaryValue(bits[n - 8..n])
  {
    assert bits[..n] == bits[..n - 8] + bits[n - 8..n];
    BinaryConcat8(bits[..n - 8], bits[n - 8..n]);
  }

  /** The mask text read as one binary number. */
  lemma MaskBitsValue(cidr: int)
    requires 0 <= cidr <= 32
    ensures BinaryValue(MaskBits(cidr)) == Pow2(32) - Pow2(32 - cidr)
  {
    OnesThenZeros(cidr, 32 - cidr);
    assert cidr + (32 - cidr) == 32;
  }

  /** Read as one 32-bit number, the mask is `cidr` one-bits followed by
      `32 - cidr` zero-bits: 2^32 - 2^(32 - cidr). */
  lemma MaskValue(cidr: int)
    requires 0 <= cidr <= 32
    ensures IsAddress(MaskOctets(cidr))
    ensures ValueOf(MaskOctets(cidr)) == Pow2(32) - Pow2(32 - cidr)
  {
    var bits := MaskBits(cidr);
    ChunkedValue(bits);
    MaskBitsValue(cidr);
  }

  /** The upstream id is the part of the address the mask covers with
      whole 255 octets, up to the first mask octet that is not 255. */
  lemma UpstreamUnderMask(ip: seq<int>, cidr: int)
    requires IsAddress(ip) && 1 <= cidr <= 31
    ensures var up := UpstreamId(ip, cidr);
      && |up| < 4
      && (forall k :: 0 <= k < |up| ==> up[k] == ip[k] && MaskOctets(cidr)[k] == 255)
      && MaskOctets(cidr)[|up|] != 255
  {
    HostOctetIsFirstPartial(cidr);
  }

  /** The host octet is the first octet whose mask octet is not 255. */
  lemma HostOctetIsFirstPartial(cidr: int)
    requires 1 <= cidr <= 31
    ensures forall k :: 0 <= k < HostOctet(cidr) - 1 ==> MaskOctets(cidr)[k] == 255
    ensures MaskOctets(cidr)[HostOctet(cidr) - 1] != 255
  {
    MaskOctetsFormula(cidr);
    Pow2Octet();
  }

  // ---------------------------------------------------------------------
  // Properties of the counts
  // ---------------------------------------------------------------------

  /** How the counts of lines 137, 150-151, 179 and 213 relate. */
  lemma Counts(cidr: int)
    requires 1 <= cidr <= 31
    ensures Subnets(cidr) == 1 <==> cidr == 8 || cidr == 16 || cidr == 24
    ensures 1 <= Subnets(cidr) <= 128
    ensures IdPerSubnet(cidr) * Subnets(cidr) == 256
    ensures 2 <= IdPerSubnet(cidr) <= 256
    ensures IpPerSubnet(cidr) == IdPerSubnet(cidr) * Pow2(8 * (4 - HostOctet(cidr)))
    ensures TotalIps(cidr) == Pow2(32 - 8 * (cidr / 8))
    ensures TotalIps(cidr) / Subnets(cidr) == IpPerSubnet(cidr)
  {
    SingleSubnet(cidr);
    SubnetCountBounds(cidr);
    StepTimesCount(cidr);
    StepSpan(cidr);
    TotalSpan(cidr);
  }

  /** A prefix on an octet boundary makes a single subnet, and only then. */
  lemma SingleSubnet(cidr: int)
    requires 1 <= cidr <= 31
    ensures Subnets(cidr) == 1 <==> cidr == 8 || cidr == 16 || cidr == 24
  {
    Pow2Octet();
  }

  lemma SubnetCountBounds(cidr: int)
    requires 1 <= cidr <= 31
    ensures 1 <= Subnets(cidr) <= 128
    ensures 2 <= IdPerSubnet(cidr) <= 256
  {
    var r := cidr % 8;
    Pow2Monotone(r, 7);
    Pow2Monotone(8 - r, 8);
    Pow2Octet();
  }

  lemma StepTimesCount(cidr: int)
    requires 1 <= cidr <= 31
    ensures IdPerSubnet(cidr) * Subnets(cidr) == 256
  {
    var r := cidr % 8;
    Pow2Add(8 - r, r);
    Pow2Octet();
  }

  lemma StepSpan(cidr: int)
    requires 1 <= cidr <= 31
    ensures IpPerSubnet(cidr) == IdPerSubnet(cidr) * Pow2(8 * (4 - HostOctet(cidr)))
  {
    var e := 8 * (4 - HostOctet(cidr));
    Pow2Add(8 - cidr % 8, e);
    assert 8 - cidr % 8 + e == 32 - cidr;
  }

  lemma TotalSpan(cidr: int)
    requires 1 <= cidr <= 31
    ensures TotalIps(cidr) == Pow2(32 - 8 * (cidr / 8))
    ensures TotalIps(cidr) / Subnets(cidr) == IpPerSubnet(cidr)
  {
    var r := cidr % 8;
    assert 32 - cidr + r == 32 - 8 * (cidr / 8);
    Pow2Add(32 - cidr, r);
    var t, n, a := TotalIps(cidr), Subnets(cidr), IpPerSubnet(cidr);
    assert t == a * n;
    DivUnique(t, n, a);
  }

  // ---------------------------------------------------------------------
  // Properties of the enumeration
  // ---------------------------------------------------------------------

  /** The host octet of pass `j`'s network id and broadcast id. */
  lemma HostOctetsOf(ip: seq<int>, cidr: int, j: int)
    requires IsAddress(ip) && 1 <= cidr <= 31
    ensures var h, d := HostOctet(cidr), IdPerSubnet(cidr);
      && NetworkId(ip, cidr, j)[h - 1] == j * d
      && BroadcastId(ip, cidr, j)[h - 1] == j * d + d - 1
  {
  }

  /** Every entry is a four-octet address that starts with the upstream id;
      the host octet holds `j * step` in a network id and `j * step +
      step - 1` in a broadcast id, the later octets 0 and 255. */
  lemma PartitionShape(ip: seq<int>, cidr: int, j: int)
    requires IsAddress(ip) && 1 <= cidr <= 31 && 0 <= j < Subnets(cidr)
    ensures var h, up, d := HostOctet(cidr), UpstreamId(ip, cidr), IdPerSubnet(cidr);
      && IsAddress(NetworkId(ip, cidr, j)) && IsAddress(BroadcastId(ip, cidr, j))
      && NetworkId(ip, cidr, j)[..h - 1] == up && BroadcastId(ip, cidr, j)[..h - 1] == up
      && NetworkId(ip, cidr, j)[h - 1] == j * d
      && BroadcastId(ip, cidr, j)[h - 1] == j * d + d - 1
      && (forall k :: h <= k < 4 ==> NetworkId(ip, cidr, j)[k] == 0)
      && (forall k :: h <= k < 4 ==> BroadcastId(ip, cidr, j)[k] == 255)
  {
    PassRange(cidr, j);
    var h, up, d := HostOctet(cidr), UpstreamId(ip, cidr), IdPerSubnet(cidr);
    var net, bc := NetworkId(ip, cidr, j), BroadcastId(ip, cidr, j);
    assert net == up + [j * d] + Repeat(0, 4 - h);
    assert bc == up + [j * d + d - 1] + Repeat(255, 4 - h);
    assert net[..h - 1] == up;
    assert bc[..h - 1] == up;
    assert net[h - 1] == j * d && bc[h - 1] == j * d + d - 1;
    forall k | h <= k < 4 ensures net[k] == 0 && bc[k] == 255 {
    }
    forall k | 0 <= k < 4 ensures IsOctet(net[k]) && IsOctet(bc[k]) {
      if k < h - 1 {
        assert net[k] == up[k] && bc[k] == up[k];
      }
    }
  }

  /** Pass `j` of the loop stays inside one octet. */
  lemma PassRange(cidr: int, j: int)
    requires 1 <= cidr <= 31 && 0 <= j < Subnets(cidr)
    ensures 0 <= j * IdPerSubnet(cidr) && j * IdPerSubnet(cidr) + IdPerSubnet(cidr) <= 256
  {
    var d, n := IdPerSubnet(cidr), Subnets(cidr);
    StepTimesCount(cidr);
    MulLeft(j + 1, n, d);
    MulAddOne(j, d);
    MulLeft(0, j, d);
  }

  /** The network ids ascend from 0 in the host octet; each broadcast id is
      one below the next network id there, and the last one is 255. */
  lemma HostOctetTiling(ip: seq<int>, cidr: int)
    requires IsAddress(ip) && 1 <= cidr <= 31
    ensures var h, ids, bcs := HostOctet(cidr), NetworkIds(ip, cidr), BroadcastIds(ip, cidr);
      && |ids| == |bcs| == Subnets(cidr)
      && ids[0][h - 1] == 0
      && bcs[|bcs| - 1][h - 1] == 255
      && (forall i :: 0 <= i < |ids| ==> ids[i][h - 1] < bcs[i][h - 1])
      && (forall i :: 0 <= i < |ids| - 1 ==> bcs[i][h - 1] + 1 == ids[i + 1][h - 1])
      && (forall i, k :: 0 <= i < k < |ids| ==> ids[i][h - 1] < ids[k][h - 1])
  {
    PassesEnds(ip, cidr);
    PassesNonEmpty(ip, cidr);
    PassesAdjacent(ip, cidr);
    PassesAscend(ip, cidr);
  }

  lemma PassesEnds(ip: seq<int>, cidr: int)
    requires IsAddress(ip) && 1 <= cidr <= 31
    ensures var h, ids, bcs := HostOctet(cidr), NetworkIds(ip, cidr), BroadcastIds(ip, cidr);
      ids[0][h - 1] == 0 && bcs[|bcs| - 1][h - 1] == 255
  {
    var n := Subnets(cidr);
    SubnetCountBounds(cidr);
    StepTimesCount(cidr);
    HostOctetAt(ip, cidr, 0);
    HostOctetAt(ip, cidr, n - 1);
    LastStep(n, IdPerSubnet(cidr));
  }

  /** The last pass ends the host octet at 255. */
  lemma LastStep(n: int, d: int)
    requires d * n == 256
    ensures (n - 1) * d + d - 1 == 255
  {
  }

  lemma PassesNonEmpty(ip: seq<int>, cidr: int)
    requires IsAddress(ip) && 1 <= cidr <= 31
    ensures var h, ids, bcs := HostOctet(cidr), NetworkIds(ip, cidr), BroadcastIds(ip, cidr);
      forall i :: 0 <= i < |ids| ==> ids[i][h - 1] < bcs[i][h - 1]
  {
    SubnetCountBounds(cidr);
    forall i | 0 <= i < Subnets(cidr)
      ensures NetworkIds(ip, cidr)[i][HostOctet(cidr) - 1] < BroadcastIds(ip, cidr)[i][HostOctet(cidr) - 1]
    {
      HostOctetAt(ip, cidr, i);
    }
  }

  lemma PassesAdjacent(ip: seq<int>, cidr: int)
    requires IsAddress(ip) && 1 <= cidr <= 31
    ensures var h, ids, bcs := HostOctet(cidr), NetworkIds(ip, cidr), BroadcastIds(ip, cidr);
      forall i :: 0 <= i < |ids| - 1 ==> bcs[i][h - 1] + 1 == ids[i + 1][h - 1]
  {
    forall i | 0 <= i < Subnets(cidr) - 1
      ensures BroadcastIds(ip, cidr)[i][HostOctet(cidr) - 1] + 1 == NetworkIds(ip, cidr)[i + 1][HostOctet(cidr) - 1]
    {
      HostOctetAt(ip, cidr, i);
      HostOctetAt(ip, cidr, i + 1);
      MulAddOne(i, IdPerSubnet(cidr));
    }
  }

  lemma PassesAscend(ip: seq<int>, cidr: int)
    requires IsAddress(ip) && 1 <= cidr <= 31
    ensures var h, ids := HostOctet(cidr), NetworkIds(ip, cidr);
      forall i, k :: 0 <= i < k < |ids| ==> ids[i][h - 1] < ids[k][h - 1]
  {
    forall i, k | 0 <= i < k < Subnets(cidr)
      ensures NetworkIds(ip, cidr)[i][HostOctet(cidr) - 1] < NetworkIds(ip, cidr)[k][HostOctet(cidr) - 1]
    {
      HostOctetAt(ip, cidr, i);
      HostOctetAt(ip, cidr, k);
      MulStrict(i, k, IdPerSubnet(cidr));
    }
  }

  /** The host octet of pass `j`'s network and broadcast ids. */
  lemma HostOctetAt(ip: seq<int>, cidr: int, j: int)
    requires IsAddress(ip) && 1 <= cidr <= 31 && 0 <= j < Subnets(cidr)
    ensures var h, d := HostOctet(cidr), IdPerSubnet(cidr);
      && NetworkIds(ip, cidr)[j][h - 1] == j * d
      && BroadcastIds(ip, cidr)[j][h - 1] == j * d + d - 1
  {
  }

  /** As 32-bit numbers, pass `j`'s network id is the upstream network plus
      its host octet shifted past the octets after it; its broadcast id also
      has every bit after the host octet set. */
  lemma PartitionValues(ip: seq<int>, cidr: int, j: int)
    requires IsAddress(ip) && 1 <= cidr <= 31 && 0 <= j < Subnets(cidr)
    ensures var h, p, u := HostOctet(cidr), Pow2(8 * (4 - HostOctet(cidr))), ValueOf(UpstreamNetwork(ip, cidr));
      && IsAddress(NetworkId(ip, cidr, j)) && IsAddress(BroadcastId(ip, cidr, j))
      && ValueOf(NetworkId(ip, cidr, j)) == u + NetworkId(ip, cidr, j)[h - 1] * p
      && ValueOf(BroadcastId(ip, cidr, j)) == u + BroadcastId(ip, cidr, j)[h - 1] * p + (p - 1)
  {
    PartitionShape(ip, cidr, j);
    var h, up := HostOctet(cidr), UpstreamId(ip, cidr);
    var r := 4 - h;
    var net, bc := NetworkId(ip, cidr, j), BroadcastId(ip, cidr, j);
    assert UpstreamNetwork(ip, cidr) == up + [0] + Repeat(0, r);
    assert net == up + [net[h - 1]] + Repeat(0, r);
    assert bc == up + [bc[h - 1]] + Repeat(255, r);
    PlacedValue(up, 0, Repeat(0, r));
    PlacedValue(up, net[h - 1], Repeat(0, r));
    PlacedValue(up, bc[h - 1], Repeat(255, r));
    ValueOfZeros(r);
    ValueOfOnes(r);
  }

  /** The partitions cover the upstream network: the first starts at the
      upstream network, each holds `ip_per_subnet` addresses, and the last
      broadcast id is the last address of the upstream network (with
      `PartitionsAdjacent`, nothing between two partitions is missed). */
  lemma PartitionsTile(ip: seq<int>, cidr: int)
    requires IsAddress(ip) && 1 <= cidr <= 31
    ensures var ids, bcs, u := NetworkIds(ip, cidr), BroadcastIds(ip, cidr), UpstreamNetwork(ip, cidr);
      && |ids| == |bcs| == Subnets(cidr)
      && (forall i :: 0 <= i < |ids| ==> IsAddress(ids[i]) && IsAddress(bcs[i]))
      && ids[0] == u
      && (forall i :: 0 <= i < |ids| ==> ValueOf(bcs[i]) - ValueOf(ids[i]) + 1 == IpPerSubnet(cidr))
      && ValueOf(bcs[|bcs| - 1]) == ValueOf(u) + TotalIps(cidr) - 1
  {
    var ids, bcs := NetworkIds(ip, cidr), BroadcastIds(ip, cidr);
    forall i | 0 <= i < Subnets(cidr)
      ensures IsAddress(ids[i]) && IsAddress(bcs[i])
      ensures ValueOf(bcs[i]) - ValueOf(ids[i]) + 1 == IpPerSubnet(cidr)
    {
      EntryAt(ip, cidr, i);
      PartitionSize(ip, cidr, i);
    }
    EntryAt(ip, cidr, 0);
    FirstPartition(ip, cidr);
    LastEntry(ip, cidr);
  }

  /** Each partition after the first starts right after the one before it. */
  lemma PartitionsAdjacent(ip: seq<int>, cidr: int, j: int)
    requires IsAddress(ip) && 1 <= cidr <= 31 && 0 < j < Subnets(cidr)
    ensures IsAddress(BroadcastIds(ip, cidr)[j - 1]) && IsAddress(NetworkIds(ip, cidr)[j])
    ensures ValueOf(BroadcastIds(ip, cidr)[j - 1]) + 1 == ValueOf(NetworkIds(ip, cidr)[j])
  {
    EntryAt(ip, cidr, j - 1);
    EntryAt(ip, cidr, j);
    PartitionNext(ip, cidr, j - 1);
  }

  /** The last partition, read off the enumerated broadcast list. */
  lemma LastEntry(ip: seq<int>, cidr: int)
    requires IsAddress(ip) && 1 <= cidr <= 31
    ensures var bcs := BroadcastIds(ip, cidr);
      && IsAddress(bcs[|bcs| - 1])
      && ValueOf(bcs[|bcs| - 1]) == ValueOf(UpstreamNetwork(ip, cidr)) + TotalIps(cidr) - 1
  {
    EntryAt(ip, cidr, Subnets(cidr) - 1);
    LastPartition(ip, cidr);
  }

  /** Entry `j` of the enumerated lists is pass `j`'s network and broadcast id. */
  lemma EntryAt(ip: seq<int>, cidr: int, j: int)
    requires IsAddress(ip) && 1 <= cidr <= 31 && 0 <= j < Subnets(cidr)
    ensures NetworkIds(ip, cidr)[j] == NetworkId(ip, cidr, j)
    ensures BroadcastIds(ip, cidr)[j] == BroadcastId(ip, cidr, j)
  {
  }

  /** Partition `j` holds `ip_per_subnet` addresses. */
  lemma PartitionSize(ip: seq<int>, cidr: int, j: int)
    requires IsAddress(ip) && 1 <= cidr <= 31 && 0 <= j < Subnets(cidr)
    ensures IsAddress(NetworkId(ip, cidr, j)) && IsAddress(BroadcastId(ip, cidr, j))
    ensures ValueOf(BroadcastId(ip, cidr, j)) - ValueOf(NetworkId(ip, cidr, j)) + 1 == IpPerSubnet(cidr)
  {
    var h, d := HostOctet(cidr), IdPerSubnet(cidr);
    PartitionValues(ip, cidr, j);
    HostOctetsOf(ip, cidr, j);
    StepSpan(cidr);
    SizeArith(NetworkId(ip, cidr, j)[h - 1], BroadcastId(ip, cidr, j)[h - 1], d,
      Pow2(8 * (4 - h)), IpPerSubnet(cidr));
  }

  /** One past partition `j`'s broadcast id is partition `j + 1`'s network id. */
  lemma PartitionNext(ip: seq<int>, cidr: int, j: int)
    requires IsAddress(ip) && 1 <= cidr <= 31 && 0 <= j < Subnets(cidr) - 1
    ensures IsAddress(BroadcastId(ip, cidr, j)) && IsAddress(NetworkId(ip, cidr, j + 1))
    ensures ValueOf(BroadcastId(ip, cidr, j)) + 1 == ValueOf(NetworkId(ip, cidr, j + 1))
  {
    var h, d := HostOctet(cidr), IdPerSubnet(cidr);
    PartitionValues(ip, cidr, j);
    PartitionValues(ip, cidr, j + 1);
    HostOctetsOf(ip, cidr, j);
    HostOctetsOf(ip, cidr, j + 1);
    MulAddOne(j, d);
    AdjacentArith(BroadcastId(ip, cidr, j)[h - 1], NetworkId(ip, cidr, j + 1)[h - 1], Pow2(8 * (4 - h)));
  }

  /** The first partition starts at the upstream network. */
  lemma FirstPartition(ip: seq<int>, cidr: int)
    requires IsAddress(ip) && 1 <= cidr <= 31
    ensures NetworkId(ip, cidr, 0) == UpstreamNetwork(ip, cidr)
  {
    var h := HostOctet(cidr);
    PartitionValues(ip, cidr, 0);
    HostOctetsOf(ip, cidr, 0);
    ZeroArith(NetworkId(ip, cidr, 0)[h - 1], Pow2(8 * (4 - h)));
    ValueInjective(NetworkId(ip, cidr, 0), UpstreamNetwork(ip, cidr));
  }

  /** The last partition ends at the last address of the upstream network. */
  lemma LastPartition(ip: seq<int>, cidr: int)
    requires IsAddress(ip) && 1 <= cidr <= 31
    ensures IsAddress(BroadcastId(ip, cidr, Subnets(cidr) - 1))
    ensures ValueOf(BroadcastId(ip, cidr, Subnets(cidr) - 1))
      == ValueOf(UpstreamNetwork(ip, cidr)) + TotalIps(cidr) - 1
  {
    var h, n := HostOctet(cidr), Subnets(cidr);
    SubnetCountBounds(cidr);
    StepTimesCount(cidr);
    PartitionValues(ip, cidr, n - 1);
    HostOctetsOf(ip, cidr, n - 1);
    LastStep(n, IdPerSubnet(cidr));
    TotalShift(cidr);
    LastArith(BroadcastId(ip, cidr, n - 1)[h - 1], Pow2(8 * (4 - h)), TotalIps(cidr));
  }

  /** The upstream network holds 256 times the addresses after the host octet. */
  lemma TotalShift(cidr: int)
    requires 1 <= cidr <= 31
    ensures TotalIps(cidr) == Pow2(8 * (4 - HostOctet(cidr))) * 256
  {
    var e := 8 * (4 - HostOctet(cidr));
    TotalSpan(cidr);
    assert e + 8 == 32 - 8 * (cidr / 8);
    Pow2Octets(e);
  }

  lemma SizeArith(lo: int, hi: int, d: int, p: int, span: int)
    requires hi == lo + d - 1 && span == d * p
    ensures hi * p + (p - 1) - lo * p + 1 == span
  {
  }

  lemma AdjacentArith(hi: int, next: int, p: int)
    requires next == hi + 1
    ensures hi * p + (p - 1) + 1 == next * p
  {
  }

  lemma ZeroArith(lo: int, p: int)
    requires lo == 0
    ensures lo * p == 0
  {
  }

  lemma LastArith(hi: int, p: int, total: int)
    requires hi == 255 && total == p * 256
    ensures hi * p + (p - 1) == total - 1
  {
  }

  /** Exactly one pass of the loop sees the supplied host octet inside its
      range, and it is pass `SubnetIndex`, which lies in [0, subnets). */
  lemma OnePassMatches(ip: seq<int>, cidr: int)
    requires IsAddress(ip) && 1 <= cidr <= 31
    ensures 0 <= SubnetIndex(ip, cidr) < Subnets(cidr)
    ensures var h, d := HostOctet(cidr), IdPerSubnet(cidr);
      forall j :: 0 <= j < Subnets(cidr) ==>
        (j * d <= ip[h - 1] <= j * d + d - 1 <==> j == SubnetIndex(ip, cidr))
  {
    var h, d, n, x := HostOctet(cidr), IdPerSubnet(cidr), Subnets(cidr), ip[HostOctet(cidr) - 1];
    SubnetCountBounds(cidr);
    StepTimesCount(cidr);
    DivBounds(x, d);
    StepBound(x / d, d, n);
    forall j | 0 <= j < n && j * d <= x <= j * d + d - 1
      ensures j == x / d
    {
      DivUnique(x, d, j);
    }
  }

  /** The supplied address lies in exactly one partition, as 32-bit numbers:
      the one `subnet_index` names. */
  lemma SuppliedInOnePartition(ip: seq<int>, cidr: int)
    requires IsAddress(ip) && 1 <= cidr <= 31
    ensures 0 <= SubnetIndex(ip, cidr) < Subnets(cidr)
    ensures forall j :: 0 <= j < Subnets(cidr) ==>
      && IsAddress(NetworkId(ip, cidr, j)) && IsAddress(BroadcastId(ip, cidr, j))
      && (ValueOf(NetworkId(ip, cidr, j)) <= ValueOf(ip) <= ValueOf(BroadcastId(ip, cidr, j))
          <==> j == SubnetIndex(ip, cidr))
  {
    OnePassMatches(ip, cidr);
    SuppliedValue(ip, cidr);
    var h := HostOctet(cidr);
    var p := Pow2(8 * (4 - h));
    forall j | 0 <= j < Subnets(cidr)
      ensures IsAddress(NetworkId(ip, cidr, j)) && IsAddress(BroadcastId(ip, cidr, j))
      ensures ValueOf(NetworkId(ip, cidr, j)) <= ValueOf(ip) <= ValueOf(BroadcastId(ip, cidr, j))
        <==> j == SubnetIndex(ip, cidr)
    {
      PartitionValues(ip, cidr, j);
      HostOctetsOf(ip, cidr, j);
      InsideArith(NetworkId(ip, cidr, j)[h - 1], BroadcastId(ip, cidr, j)[h - 1], ip[h - 1], ValueOf(ip[h..]), p);
    }
  }

  /** The 32-bit value of the supplied address, split at the host octet. */
  lemma SuppliedValue(ip: seq<int>, cidr: int)
    requires IsAddress(ip) && 1 <= cidr <= 31
    ensures var h := HostOctet(cidr);
      && AllOctets(ip[h..])
      && 0 <= ValueOf(ip[h..]) < Pow2(8 * (4 - h))
      && ValueOf(ip) == ValueOf(UpstreamNetwork(ip, cidr))
           + ip[h - 1] * Pow2(8 * (4 - h)) + ValueOf(ip[h..])
  {
    SplitAtHost(ip, cidr);
    UpstreamValue(ip, cidr);
  }

  /** The supplied address as its upstream id, its host octet and the rest. */
  lemma SplitAtHost(ip: seq<int>, cidr: int)
    requires IsAddress(ip) && 1 <= cidr <= 31
    ensures var h := HostOctet(cidr);
      && AllOctets(ip[h..])
      && 0 <= ValueOf(ip[h..]) < Pow2(8 * (4 - h))
      && ValueOf(ip) == ValueOf(UpstreamId(ip, cidr)) * 256 * Pow2(8 * (4 - h))
           + ip[h - 1] * Pow2(8 * (4 - h)) + ValueOf(ip[h..])
  {
    var h := HostOctet(cidr);
    var up := UpstreamId(ip, cidr);
    assert ip == up + [ip[h - 1]] + ip[h..];
    PlacedValue(up, ip[h - 1], ip[h..]);
    ValueRange(ip[h..]);
  }

  /** The upstream network is the upstream id shifted past the host octet. */
  lemma UpstreamValue(ip: seq<int>, cidr: int)
    requires IsAddress(ip) && 1 <= cidr <= 31
    ensures ValueOf(UpstreamNetwork(ip, cidr))
      == ValueOf(UpstreamId(ip, cidr)) * 256 * Pow2(8 * (4 - HostOctet(cidr)))
  {
    var h := HostOctet(cidr);
    ZeroPadValue(UpstreamId(ip, cidr), 5 - h);
    assert 5 - h - 1 == 4 - h;
  }

  /** With `rest` below `p`, the number `x * p + rest` lies between `lo * p`
      and `hi * p + p - 1` exactly when `x` lies between `lo` and `hi`. */
  lemma InsideArith(lo: int, hi: int, x: int, rest: int, p: nat)
    requires 0 <= rest < p
    ensures lo * p <= x * p + rest <= hi * p + (p - 1) <==> lo <= x <= hi
  {
    MulAddOne(x, p);
    MulAddOne(hi, p);
    if lo <= x <= hi {
      MulLeft(lo, x, p);
      MulLeft(x + 1, hi + 1, p);
    } else if x < lo {
      MulLeft(x + 1, lo, p);
    } else {
      MulLeft(hi + 1, x, p);
    }
  }
}
