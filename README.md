# subnet.py in Dafny

`subnet.py` is a command-line IPv4 subnet calculator. It takes one argument
in `x.x.x.x/y` form and checks it:

- both `.` and `/` are present;
- it splits into an address and a prefix;
- every octet is in [0, 255];
- there are four octets;
- the prefix is in [1, 32].

A `/32` is reported as the address itself. Any other prefix leads the
script to compute:

- the *host octet*, the first octet whose mask octet is not 255;
- the subnet mask, built from a text of `cidr` ones and `32 - cidr` zeros
  cut into octets;
- the upstream network id, the octets before the host octet;
- the number of subnets the prefix creates inside the upstream network;
- the addresses per subnet and the total number of addresses.

One loop then lists every subnet's network id and broadcast id and notes
which subnet holds the supplied address. Finally the script says whether
the address is that subnet's network id, its broadcast id or a valid host.

The model has one Dafny module per part of the script:

| module | file | what it holds |
|---|---|---|
| `Arith` | `arith.dfy` | powers of two, and the few facts about `*`, `/` and `%` the counts rest on |
| `Text` | `text.dfy` | `str.split`, `'.'.join`, `int()` and `str()` on strings, with their round trips |
| `Address` | `address.dfy` | addresses as octet lists and as the 32-bit number they stand for |
| `Cidr` | `cidr.dfy` | argument parsing and validation, as a function and as the script's step-by-step method |
| `Subnet` | `subnet.dfy` | host octet, mask, counts and upstream id; the enumeration loop, and what its lists mean as address ranges |
| `Validity` | `validity.dfy` | the verdict on the supplied address |
| `Calculator` | `calculator.dfy` | the whole script, from argument text to report, as a function and as a method; worked examples |

The script's code is imperative top-level statements. Two of them
become methods with loop invariants:

- the octet check at lines 70-73, as `Cidr.CheckOctets`;
- the subnet loop at lines 181-202, as `Subnet.Enumerate`.

Each method is proved equal to a specification function. The script run
end to end is `Calculator.Run`, proved equal to `Calculator.Calculate`.
Everything else the script computes by a single expression, and becomes a
function with lemmas about it.

## Model

| member | source | states |
|---|---|---|
| `Text.Split` | subnet.py:64-65 | `str.split` on one character never yields an empty list |
| `Text.Join` | subnet.py:85 | `'.'.join` of a non-empty list; `JoinSplit` and `SplitJoin` show it is the inverse of `Split` |
| `Text.SplitCount` | subnet.py:64 | splitting yields one piece more than there are separators, so `ip, cidr = ...split("/")` unpacks exactly when there is one `/` |
| `Text.SplitPiecesFree` | subnet.py:64-65 | no piece of a split holds the separator |
| `Text.JoinSplit` | subnet.py:64-65 | joining the pieces with the separator gives back the split text |
| `Text.SplitJoin` | subnet.py:85 | splitting the join of separator-free pieces gives back the pieces |
| `Text.ParseInt` | subnet.py:65-66 | `int()` succeeds only on non-empty text without `.` or `/` |
| `Text.ParseInts` | subnet.py:65 | the list comprehension succeeds exactly when every piece parses, with one value per piece, in order |
| `Text.IntToString` | subnet.py:85 | `str()` of an integer is non-empty and holds neither `.` nor `/` |
| `Text.IntTexts` | subnet.py:85 | `[str(s) for s in xs]`: one text per integer, in order, each `IntToString` of it; `IntTextsRoundTrip` reads them back |
| `Text.Dotted` | subnet.py:210-212 | the dotted form of an octet list; `SplitDotted` and `DottedInjective` state its properties |
| `Text.NatRoundTrip` | subnet.py:85 | the decimal digits of a natural number read back as that number |
| `Text.IntRoundTrip` | subnet.py:85 | `int(str(i)) == i` for every integer |
| `Text.IntTextsRoundTrip` | subnet.py:85 | parsing every rendered octet gives the octets back |
| `Text.SplitDotted` | subnet.py:85 | splitting a dotted address on `.` gives the octet texts; a dotted address has no `/`, and has a `.` when there are two octets or more |
| `Text.DottedInjective` | subnet.py:210 | two octet lists have the same dotted form exactly when they are equal |
| `Cidr.Parse` | subnet.py:55-81 | an accepted argument is four octets in [0, 255] and a prefix in [1, 32]; which error each refused argument gets, in the script's order, is stated by `SeparatorErrors` and `ParseErrors` |
| `Cidr.CheckOctets` | subnet.py:70-73 | the loop accepts exactly when every octet is in [0, 255] |
| `Cidr.ParseArgument` | subnet.py:55-81 | the step-by-step parse, octet loop included, returns what `Parse` returns on every argument |
| `Cidr.ParseExact` | subnet.py:55-81 | an argument is accepted with value `c` exactly when it is an address text, one `/` and a prefix text that read as a valid `c` |
| `Cidr.ParseSound` | subnet.py:64-66 | an accepted argument is an address text, `/` and a prefix text that read as the accepted values |
| `Cidr.ParseComplete` | subnet.py:64-81 | an address text and a prefix text around one `/`, reading as a valid address and prefix, are accepted with those values |
| `Cidr.Render` | subnet.py:85 | the inverse of `Parse` that `RenderParse` needs, not a text the script builds: line 85's dotted octets, then `/` and the prefix; it contains a `/` |
| `Cidr.RenderParse` | subnet.py:64-81 | rendering a valid address and prefix and parsing the text gives them back |
| `Cidr.SeparatorErrors` | subnet.py:55-64 | the argument is refused for a missing separator exactly when `.` or `/` is missing, and for the `/` count exactly when both are present and the number of `/` is not one |
| `Cidr.ParseErrors` | subnet.py:64-81 | with both separators and one `/` between an address text and a prefix text: a non-integer octet text is reported before a non-integer prefix text, an octet out of range whatever the octet count and the prefix, then a count other than four, then a prefix outside [1, 32], each exactly in its case |
| `Subnet.HostOctet` | subnet.py:103 | the host octet is between 1 and 4 for every prefix in [1, 31] |
| `Subnet.HostOctetIsFirstPartial` | subnet.py:94-103 | every mask octet before the host octet is 255, and the host octet's is not |
| `Address.Repeat` | subnet.py:115 | `x * n` and `[x] * n` have length `n` and hold only `x` |
| `Subnet.MaskBits` | subnet.py:115 | the mask text has 32 binary digits, and bit `i` is `1` exactly when `i < cidr` |
| `Subnet.BinaryValue` | subnet.py:116 | `int(bits, 2)`; `OnesThenZeros` and `ChunkedValue` state its values |
| `Subnet.Chunks` | subnet.py:116 | the four 8-bit slices of a 32-bit text read in base 2; `ChunkedValue` shows the 32-bit value is kept |
| `Subnet.MaskOctets` | subnet.py:115-116 | the mask as four octets; `MaskOctetsFormula`, `MaskValue` and `Calculator.MaskOf19` state what they are |
| `Subnet.MaskChunkBits` | subnet.py:115-116 | each 8-bit slice of the mask text is the ones the prefix puts in that octet, then zeros |
| `Subnet.OnesThenZeros` | subnet.py:115-116 | `a` ones and then `b` zeros read in base 2 as 2^(a+b) - 2^b |
| `Subnet.MaskOctetOnes` | subnet.py:116 | mask octet `k` is 256 - 2^(8 - m), where `m` is the number of ones the prefix puts in that octet |
| `Subnet.MaskOctetsFormula` | subnet.py:115-116 | mask octet `k` is 255 before octet `cidr // 8`, 256 - 2^(8 - cidr % 8) at it, and 0 after it |
| `Subnet.MaskIsAddress` | subnet.py:116 | the four mask octets are each in [0, 255] |
| `Subnet.ChunkedValue` | subnet.py:116 | cutting a 32-bit text into four octets keeps its value |
| `Subnet.MaskValue` | subnet.py:115-116 | as a 32-bit number, the mask is 2^32 - 2^(32 - cidr): `cidr` leading ones |
| `Subnet.UpstreamId` | subnet.py:162 | the upstream id has `host_octet - 1` octets, all in [0, 255] |
| `Subnet.UpstreamUnderMask` | subnet.py:162 | the upstream id is the prefix of the address under mask octets of 255, stopping at the first mask octet that is not 255 |
| `Subnet.UpstreamNetwork` | subnet.py:212 | the zero-padded upstream id is a four-octet address |
| `Subnet.UpstreamValue` | subnet.py:162-212 | the upstream network's value is the upstream id shifted past the host octet and the octets after it |
| `Subnet.Subnets` | subnet.py:137 | `2 ** (cidr % 8)`; `Counts` and `SingleSubnet` state its properties |
| `Subnet.IpPerSubnet` | subnet.py:150 | `2 ** (32 - cidr)`; `Counts`, `StepSpan` and `PartitionSize` relate it to the step and the partitions |
| `Subnet.TotalIps` | subnet.py:151 | `ip_per_subnet * subnets`; `TotalSpan`, `TotalShift` and `LastPartition` state it is the size of the upstream network |
| `Subnet.IdPerSubnet` | subnet.py:179 | `2 ** (8 - cidr % 8)`, the step of the loop; `StepTimesCount` and `SubnetCountBounds` state its properties |
| `Subnet.Counts` | subnet.py:137-213 | see the list after the table |
| `Subnet.SingleSubnet` | subnet.py:133-137 | a prefix makes a single subnet exactly when it is 8, 16 or 24 |
| `Subnet.SubnetCountBounds` | subnet.py:137-179 | between 1 and 128 subnets, and a step of 2 to 256 |
| `Subnet.StepTimesCount` | subnet.py:137-179 | `id_per_subnet * subnets == 256`: the passes fill one octet |
| `Subnet.StepSpan` | subnet.py:150-179 | a subnet's size is the step shifted past the octets after the host octet |
| `Subnet.TotalSpan` | subnet.py:150-151 | the total is 2^(32 - 8 * (cidr // 8)), and dividing it by `subnets` gives back `ip_per_subnet` |
| `Subnet.TotalShift` | subnet.py:151 | the total is 256 times the addresses below the host octet |
| `Subnet.NetworkId` | subnet.py:186-191 | pass `j`'s network id, four octets; `PartitionShape`, `PartitionValues` and `Validity.NetworkIdMultiple` state what it is |
| `Subnet.BroadcastId` | subnet.py:187-195 | pass `j`'s broadcast id, four octets; `PartitionShape` and `PartitionSize` state what it is |
| `Subnet.NetworkIds` | subnet.py:181-191 | the network ids of all passes, one per subnet; `Enumerate` builds it, `HostOctetTiling` and `PartitionsTile` state its shape |
| `Subnet.BroadcastIds` | subnet.py:182-195 | the broadcast ids of all passes, one per subnet; `Enumerate` builds it, `PartitionsTile` and `PartitionsAdjacent` state its shape |
| `Subnet.SubnetIndex` | subnet.py:199-200 | the pass holding the supplied address; `Enumerate`, `OnePassMatches` and `SuppliedInOnePartition` state it |
| `Subnet.Enumerate` | subnet.py:181-202 | the loop builds exactly the network ids and broadcast ids of all `subnets` passes, and `subnet_index` ends as the host octet divided by the step, a valid index |
| `Subnet.EnumerationStep` | subnet.py:185-202 | one pass appends pass `step`'s ids, advances `i` by the step and sets `subnet_index` only when the host octet is in the pass's range |
| `Subnet.EnumerationDone` | subnet.py:185 | when `i` reaches 256 the loop has made `subnets` passes and `subnet_index` is the index of the pass holding the host octet |
| `Subnet.IndexStep` | subnet.py:199-200 | the index noted after a pass is `x // step` once the passes have reached the host octet `x`, and -1 before that |
| `Subnet.PassRange` | subnet.py:185 | every pass stays within one octet |
| `Subnet.HostOctetTiling` | subnet.py:167-187 | host octets start at 0 and end at 255; each broadcast is below its network id's successor by one; network ids strictly ascend |
| `Subnet.PassesEnds` | subnet.py:185-187 | the first network id's host octet is 0 and the last broadcast id's is 255 |
| `Subnet.PassesNonEmpty` | subnet.py:187 | in each pass the network id's host octet is below the broadcast id's |
| `Subnet.PassesAdjacent` | subnet.py:186-187 | each broadcast host octet plus one is the next network id's |
| `Subnet.PassesAscend` | subnet.py:185-186 | the network ids' host octets strictly ascend |
| `Subnet.PartitionShape` | subnet.py:190-194 | every entry is a four-octet address of the upstream id, the host octet, then zeros (network id) or 255s (broadcast id) |
| `Subnet.PartitionValues` | subnet.py:190-194 | as 32-bit numbers, a network id is the upstream network plus its host octet shifted; a broadcast id also sets every lower bit |
| `Subnet.PartitionSize` | subnet.py:150-187 | every subnet holds `ip_per_subnet` addresses, from its network id to its broadcast id |
| `Subnet.PartitionNext` | subnet.py:185-187 | one past a broadcast id is the next pass's network id |
| `Subnet.PartitionsAdjacent` | subnet.py:181-195 | one past each listed broadcast id is the next listed network id |
| `Subnet.FirstPartition` | subnet.py:190-212 | the first network id is the upstream network |
| `Subnet.LastPartition` | subnet.py:151-194 | the last broadcast id is the upstream network's first address plus the total, minus one |
| `Subnet.LastEntry` | subnet.py:151-195 | the last listed broadcast id is the last address of the upstream network |
| `Subnet.PartitionsTile` | subnet.py:181-202 | listed subnets: `subnets` of them, first = upstream network, each of size `ip_per_subnet`, last ends at the upstream network's last address |
| `Subnet.OnePassMatches` | subnet.py:199-200 | exactly one pass sees the supplied host octet in its range, the pass `x // step`, in [0, subnets) |
| `Subnet.SuppliedValue` | subnet.py:162-212 | the supplied address's value is the upstream network plus its host octet shifted plus the octets after it |
| `Subnet.SplitAtHost` | subnet.py:162 | the supplied address is its upstream id, its host octet and the rest |
| `Subnet.SuppliedInOnePartition` | subnet.py:199-200 | as 32-bit numbers, the supplied address lies in pass `j`'s range exactly when `j` is `subnet_index` |
| `Validity.Classify` | subnet.py:220-225 | network id exactly when the address equals `subnet_ids[subnet_index]`; broadcast id exactly when it is not that and equals `broadcasts[subnet_index]`; comparing dotted texts is comparing octets |
| `Validity.ClassifySupplied` | subnet.py:220-225 | the verdict on the enumerated lists at the index the loop finds; `SuppliedVerdict` states what it means |
| `Validity.SuppliedVerdict` | subnet.py:220-225 | the address is its subnet's network id exactly when its value is a multiple of `ip_per_subnet`, and its broadcast id exactly when the value is one below the next multiple |
| `Validity.OffsetInPartition` | subnet.py:199-222 | the supplied address's offset from its subnet's network id is its value modulo the subnet size |
| `Validity.NetworkIdMultiple` | subnet.py:190 | every network id is a multiple of the subnet size |
| `Validity.NetworkNotBroadcast` | subnet.py:187-223 | below a /32 a subnet's network id and broadcast id differ, so the three verdicts are distinct cases |
| `Calculator.Summary` | subnet.py:103-225 | the report for a prefix below 32; `SummaryConsistent` states that its figures agree |
| `Calculator.Calculate` | subnet.py:55-225 | the script as a function of its argument; `Run`, `ShortCircuit`, `Failures` and `CalculateRendered` state its properties |
| `Calculator.Run` | subnet.py:55-225 | the script step by step returns what `Calculate` returns on every argument |
| `Calculator.ShortCircuit` | subnet.py:83-87 | the report is the bare address exactly when the argument is accepted with prefix 32, and then it is the parsed address |
| `Calculator.Failures` | subnet.py:55-81 | the script fails exactly when parsing fails, with the same error |
| `Calculator.SummaryConsistent` | subnet.py:103-225 | see the list after the table |
| `Calculator.CalculateRendered` | subnet.py:64-87 | the script on the text of a valid address and prefix gives the bare address for a /32 and the full report otherwise |
| `Calculator.MaskOf19` | subnet.py:112-116 | the /19 mask is `[255, 255, 224, 0]` |
| `Calculator.PassesOf27` | subnet.py:169-177 | a /27 makes 8 subnets of step 32 in octet 4, with network host octets 0, 32, …, 224 and broadcast host octets 31, 63, …, 255 |
| `Calculator.VerdictOf` | subnet.py:220-225 | for an address of value `v` and subnet size `s`, the verdict is the network id exactly when `v % s == 0`, and the broadcast id exactly when `v % s == s - 1` |
| `Calculator.FirstUsageExample` | subnet.py:27 | 172.16.160.0/19 is its subnet's network id |
| `Calculator.SecondUsageExample` | subnet.py:28 | 192.168.1.21/24 is a valid host |
| `Calculator.BroadcastExample` | subnet.py:222-223 | 10.0.0.31/27 is its subnet's broadcast id |

Lemmas that only unfold a definition for the proofs (`Subnet.EntryAt`,
`Subnet.HostOctetAt`, `Subnet.HostOctetsOf`, `Subnet.OnePassMore`,
`Subnet.EnumerationStart`) and the arithmetic helpers are proof steps and
have no row.

`Subnet.Counts` relates the counts:

- there is one subnet exactly when the prefix is 8, 16 or 24;
- there are 1 to 128 subnets;
- `id_per_subnet * subnets == 256`;
- `ip_per_subnet` is 2^(32 - cidr);
- the total is 2^(32 - 8 * (cidr // 8));
- `total / subnets == ip_per_subnet`.

`Calculator.SummaryConsistent` says the figures of a report agree:

- the mask reads as `cidr` leading ones;
- the per-subnet count times the subnet count is the total;
- the lists have one entry per subnet;
- the index is in range;
- the supplied address lies between its subnet's network id and broadcast id;
- the verdict matches the address's value modulo the subnet size.

## Left out

- Argument count. Lines 49-51 check that there is exactly one argument.
  The model takes the one argument as a string.
- Help and error messages. `show_help`, `ip_octet_error` and `cidr_error`
  (lines 19-39) print messages and then `exit()`. The model returns a
  `ParseError` naming which check failed instead.
- Output. The formatted report and `print` (lines 86 and 227-250) are left
  out. `Calculator.Report` holds every figure the output shows.
- Subnet-list text. The tab-separated list at line 227 is left out.
- Binary renderings. `format(s, "08b")` (line 208) and the dotted mask bits
  (line 228) are display only.
- Stored dotted strings. The script keeps `subnet_ids` and `broadcasts` as
  dotted strings (lines 191 and 195). The model keeps octet lists and
  renders them with `Text.Dotted` where they are compared (lines
  220-222). `Text.DottedInjective` proves that comparing the two forms is
  the same.
- Text.ParseInt: models `int()` only as an optional `-` followed by ASCII
  decimal digits. Python also accepts surrounding whitespace, a leading
  `+`, underscores between digits and non-ASCII digits. Those arguments
  are refused here but accepted by the script.
- Cidr.CheckOctets: returns whether every octet is in range. The script's
  loop calls `ip_octet_error()` and exits at the first bad octet. The
  model returns the flag, and `Cidr.ParseArgument` turns it into the
  error.
- Calculator.Run: computes `ip_per_sub` (line 213) as the exact integer
  division `total // subnets`. The script uses float division and
  `int()`. The two agree because both operands are powers of two no larger
  than 2^32, which a double holds exactly.
- Prefix message. The check at line 79 accepts prefixes 1 to 32, and a 32
  stops at line 84. `cidr_error` (line 39) says the prefix must be
  between 1 and 31. The model follows the code: 32 is accepted and
  reported as a single address.
- Python's `-1` index. The script starts `subnet_index` at -1 (line 183).
  Read at lines 220-222, a -1 would pick the last list entry. The model
  proves every run of the loop sets the index to a valid value, so that
  case never arises.
- Worked examples. `Calculator.FirstUsageExample`,
  `Calculator.SecondUsageExample` and `Calculator.BroadcastExample` are
  stated on the parsed octets and prefix. `Calculator.CalculateRendered`
  connects the argument text to those values for every address and
  prefix.
