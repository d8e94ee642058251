/** Reading the command-line argument `x.x.x.x/y` (lines 55-81 of subnet.py):
    the separator check, the two splits, `int()` on every piece, and the
    range checks, in the order the script makes them. Where the script
    calls `exit()` or lets `int()` raise, the model returns an error. */
module Cidr {
  import opened Text
  import opened Address

  /** Why an argument is refused, one constructor per way the script stops. */
  datatype ParseError =
    | MissingSeparator   // no '.' or no '/': `show_help()` (line 55)
    | SlashCount         // `ip, cidr = ...split("/")` does not unpack (line 64)
    | OctetNotInteger    // `int(i)` raises on an octet piece (line 65)
    | PrefixNotInteger   // `int(cidr)` raises (line 66)
    | OctetRange         // an octet outside [0, 255]: `ip_octet_error()` (lines 70-73)
    | OctetCount         // not four octets: `ip_octet_error()` (line 75)
    | PrefixRange        // prefix outside [1, 32]: `cidr_error()` (line 79)

  datatype Result<+T> = Ok(value: T) | Err(error: ParseError)

  /** An address and its prefix length. */
  datatype Cidr = Cidr(ip: seq<int>, prefix: int)

  /** What the script accepts: four octets and a prefix in [1, 32]. */
  predicate Valid(c: Cidr) {
    IsAddress(c.ip) && 1 <= c.prefix <= 32
  }

  /** Lines 55-81 as one function of the argument text. */
  function Parse(arg: string): (r: Result<Cidr>)
    ensures r.Ok? ==> Valid(r.value)
  {
    if '.' !in arg || '/' !in arg then Err(MissingSeparator)
    else
      var halves := Split(arg, '/');
      if |halves| != 2 then Err(SlashCount)
      else
        match ParseInts(Split(halves[0], '.'))
        case None => Err(OctetNotInteger)
        case Some(ip) =>
          match ParseInt(halves[1])
          case None => Err(PrefixNotInteger)
          case Some(prefix) =>
            if !AllOctets(ip) then Err(OctetRange)
            else if |ip| != 4 then Err(OctetCount)
            else if prefix < 1 || prefix > 32 then Err(PrefixRange)
            else Ok(Cidr(ip, prefix))
  }

  /** The loop of lines 70-73: stop at the first octet outside [0, 255]. */
  method CheckOctets(ip: seq<int>) returns (ok: bool)
    ensures ok <==> AllOctets(ip)
  {
    var k := 0;
    while k < |ip|
      invariant 0 <= k <= |ip|
      invariant forall i :: 0 <= i < k ==> IsOctet(ip[i])
    {
      if ip[k] < 0 || ip[k] > 255 {
        return false;
      }
      k := k + 1;
    }
    return true;
  }

  /** Lines 55-81 as the script runs them, with the octet loop. */
  method ParseArgument(arg: string) returns (r: Result<Cidr>)
    ensures r == Parse(arg)
  {
    if '.' !in arg || '/' !in arg {
      return Err(MissingSeparator);
    }
    var halves := Split(arg, '/');
    if |halves| != 2 {
      return Err(SlashCount);
    }
    var octets := ParseInts(Split(halves[0], '.'));
    if octets.None? {
      return Err(OctetNotInteger);
    }
    var prefix := ParseInt(halves[1]);
    if prefix.None? {
      return Err(PrefixNotInteger);
    }
    var ip := octets.value;
    var inRange := CheckOctets(ip);
    if !inRange {
      return Err(OctetRange);
    }
    if |ip| != 4 {
      return Err(OctetCount);
    }
    if prefix.value < 1 || prefix.value > 32 {
      return Err(PrefixRange);
    }
    return Ok(Cidr(ip, prefix.value));
  }

  /** The argument is an address text, one `/` and a prefix text that read
      as `c`'s octets and prefix. */
  ghost predicate Denotes(arg: string, c: Cidr) {
    exists ipText: string, prefixText: string ::
      && arg == ipText + "/" + prefixText
      && '/' !in ipText && '/' !in prefixText
      && ParseInts(Split(ipText, '.')) == Some(c.ip)
      && ParseInt(prefixText) == Some(c.prefix)
  }

  /** The argument is accepted, with value `c`, exactly when it spells a
      valid `c` as `x.x.x.x/y`. */
  lemma ParseExact(arg: string, c: Cidr)
    ensures Parse(arg) == Ok(c) <==> Denotes(arg, c) && Valid(c)
  {
    if Parse(arg) == Ok(c) {
      ParseSound(arg);
    }
    if Denotes(arg, c) && Valid(c) {
      var ipText, prefixText :| && arg == ipText + "/" + prefixText
                                && '/' !in ipText && '/' !in prefixText
                                && ParseInts(Split(ipText, '.')) == Some(c.ip)
                                && ParseInt(prefixText) == Some(c.prefix);
      ParseComplete(ipText, prefixText, c);
    }
  }

  /** What is accepted is spelled as `x.x.x.x/y`. */
  lemma ParseSound(arg: string)
    requires Parse(arg).Ok?
    ensures Denotes(arg, Parse(arg).value)
  {
    var halves := Split(arg, '/');
    SplitPiecesFree(arg, '/');
    JoinSplit(arg, '/');
    assert Join(halves[1..], '/') == halves[1];
    assert arg == halves[0] + "/" + halves[1];
    assert '/' !in halves[0] && '/' !in halves[1];
  }

  /** A valid `c` spelled as `x.x.x.x/y` is accepted. */
  lemma ParseComplete(ipText: string, prefixText: string, c: Cidr)
    requires '/' !in ipText && '/' !in prefixText
    requires ParseInts(Split(ipText, '.')) == Some(c.ip)
    requires ParseInt(prefixText) == Some(c.prefix)
    requires Valid(c)
    ensures Parse(ipText + "/" + prefixText) == Ok(c)
  {
    var arg := ipText + "/" + prefixText;
    SplitAfterPiece(ipText, '/', prefixText);
    SplitWithout(prefixText, '/');
    assert Split(arg, '/') == [ipText, prefixText];
    SplitCount(ipText, '.');
    assert '.' in ipText;
  }

  /** The last five ways to refuse an argument with both separators and one
      `/`, exactly and in the script's order: an octet text that is not an
      integer (line 65) before a prefix text that is not one (line 66); then
      an octet out of range (lines 70-73) whatever the number of octets and
      the prefix; then the number of octets (line 75); then the prefix range
      (line 79). */
  lemma ParseErrors(ipText: string, prefixText: string)
    requires '/' !in ipText && '/' !in prefixText
    requires '.' in ipText + "/" + prefixText
    ensures var r, octets, prefix := Parse(ipText + "/" + prefixText),
                                     ParseInts(Split(ipText, '.')), ParseInt(prefixText);
      && (r == Err(OctetNotInteger) <==> octets.None?)
      && (r == Err(PrefixNotInteger) <==> octets.Some? && prefix.None?)
      && (r == Err(OctetRange) <==> octets.Some? && prefix.Some? && !AllOctets(octets.value))
      && (r == Err(OctetCount) <==>
            octets.Some? && prefix.Some? && AllOctets(octets.value) && |octets.value| != 4)
      && (r == Err(PrefixRange) <==>
            octets.Some? && prefix.Some? && IsAddress(octets.value)
            && (prefix.value < 1 || prefix.value > 32))
  {
    var arg := ipText + "/" + prefixText;
    SplitAfterPiece(ipText, '/', prefixText);
    SplitWithout(prefixText, '/');
    assert Split(arg, '/') == [ipText, prefixText];
  }

  /** `x.x.x.x/y` for a parsed argument. */
  function Render(c: Cidr): (s: string)
    requires |c.ip| >= 1
    ensures '/' in s
  {
    Dotted(c.ip) + "/" + IntToString(c.prefix)
  }

  /** Rendering a valid argument and parsing it gives it back. */
  lemma RenderParse(c: Cidr)
    requires Valid(c)
    ensures Parse(Render(c)) == Ok(c)
  {
    var ipText, prefixText := Dotted(c.ip), IntToString(c.prefix);
    SplitDotted(c.ip);
    IntTextsRoundTrip(c.ip);
    IntRoundTrip(c.prefix);
    assert Render(c) == ipText + "/" + prefixText;
    ParseComplete(ipText, prefixText, c);
  }

  /** The first two ways to refuse an argument, exactly: a missing
      separator, and a number of `/` other than one. */
  lemma SeparatorErrors(arg: string)
    ensures Parse(arg) == Err(MissingSeparator) <==> '.' !in arg || '/' !in arg
    ensures Parse(arg) == Err(SlashCount)
      <==> '.' in arg && '/' in arg && CountOf(arg, '/') != 1
  {
    SplitCount(arg, '/');
  }
}
