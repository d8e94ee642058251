/** The string operations the script uses on its argument and its output:
    `str.split` on one separator character, `'.'.join`, `int()` on a piece,
    and `str()` of an integer. */
module Text {

  datatype Option<+T> = None | Some(value: T)

  /** Number of occurrences of `c` in `s`. */
  function CountOf(s: string, c: char): (n: nat)
    ensures n <= |s|
    ensures n == 0 <==> c !in s
  {
    if s == [] then 0 else (if s[0] == c then 1 else 0) + CountOf(s[1..], c)
  }

  /** Python's `s.split(c)`: the pieces between the occurrences of `c`,
      empty pieces included; never an empty list. */
  function Split(s: string, c: char): (parts: seq<string>)
    ensures |parts| >= 1
  {
    if s == [] then [""]
    else
      var rest := Split(s[1..], c);
      if s[0] == c then [""] + rest
      else [[s[0]] + rest[0]] + rest[1..]
  }

  /** Python's `c.join(parts)` for a non-empty list. */
  function Join(parts: seq<string>, c: char): string
    requires |parts| >= 1
  {
    if |parts| == 1 then parts[0] else parts[0] + [c] + Join(parts[1..], c)
  }

  /** Splitting yields one piece more than there are separators. */
  lemma {:induction false} SplitCount(s: string, c: char)
    ensures |Split(s, c)| == CountOf(s, c) + 1
  {
    if s != [] {
      SplitCount(s[1..], c);
    }
  }

  /** No piece of a split holds the separator. */
  lemma {:induction false} SplitPiecesFree(s: string, c: char)
    ensures forall i :: 0 <= i < |Split(s, c)| ==> c !in Split(s, c)[i]
  {
    if s != [] {
      SplitPiecesFree(s[1..], c);
      var rest := Split(s[1..], c);
      if s[0] != c {
        assert c !in [s[0]] + rest[0];
      }
    }
  }

  /** Joining the pieces gives back the text that was split. */
  lemma {:induction false} JoinSplit(s: string, c: char)
    ensures Join(Split(s, c), c) == s
  {
    if s != [] {
      JoinSplit(s[1..], c);
      var rest := Split(s[1..], c);
      if s[0] != c {
        if |rest| > 1 {
          assert rest == [rest[0]] + rest[1..];
          assert Join(rest, c) == rest[0] + [c] + Join(rest[1..], c);
        }
      }
    }
  }

  /** Splitting text that starts with a separator-free piece. */
  lemma {:induction false} SplitAfterPiece(p: string, c: char, x: string)
    requires c !in p
    ensures Split(p + [c] + x, c) == [p] + Split(x, c)
  {
    if p == [] {
      assert p + [c] + x == [c] + x;
      assert ([c] + x)[1..] == x;
    } else {
      SplitAfterPiece(p[1..], c, x);
      assert (p + [c] + x)[1..] == p[1..] + [c] + x;
      assert [p[0]] + p[1..] == p;
    }
  }

  /** Splitting text that holds no separator. */
  lemma {:induction false} SplitWithout(p: string, c: char)
    requires c !in p
    ensures Split(p, c) == [p]
  {
    if p != [] {
      SplitWithout(p[1..], c);
      assert [p[0]] + p[1..] == p;
    }
  }

  /** Splitting the join of separator-free pieces gives the pieces back. */
  lemma {:induction false} SplitJoin(parts: seq<string>, c: char)
    requires |parts| >= 1
    requires forall i :: 0 <= i < |parts| ==> c !in parts[i]
    ensures Split(Join(parts, c), c) == parts
  {
    if |parts| == 1 {
      SplitWithout(parts[0], c);
    } else {
      assert c !in parts[0];
      SplitJoin(parts[1..], c);
      SplitAfterPiece(parts[0], c, Join(parts[1..], c));
      assert parts == [parts[0]] + parts[1..];
    }
  }

  predicate IsDigit(ch: char) {
    '0' <= ch <= '9'
  }

  /** One or more decimal digits: what `int()` accepts after an optional sign. */
  predicate IsDigits(s: string) {
    |s| >= 1 && forall i :: 0 <= i < |s| ==> IsDigit(s[i])
  }

  /** Value of a string of decimal digits, most significant first. */
  function DigitsValue(s: string): (n: nat)
    requires forall i :: 0 <= i < |s| ==> IsDigit(s[i])
  {
    if s == [] then 0
    else
      assert IsDigit(s[|s| - 1]);
      DigitsValue(s[..|s| - 1]) * 10 + (s[|s| - 1] as int - '0' as int)
  }

  function DigitChar(d: nat): (ch: char)
    requires d < 10
    ensures IsDigit(ch) && ch as int - '0' as int == d
  {
    ('0' as int + d) as char
  }

  /** Python's `str(n)` for a natural number: decimal, no leading zeros. */
  function NatToString(n: nat): (s: string)
    ensures IsDigits(s)
    ensures |s| > 1 ==> s[0] != '0'
  {
    if n < 10 then [DigitChar(n)] else NatToString(n / 10) + [DigitChar(n % 10)]
  }

  /** Python's `str(i)` for any integer. */
  function IntToString(i: int): (s: string)
    ensures |s| >= 1 && '.' !in s && '/' !in s
  {
    if i < 0 then "-" + NatToString(-i) else NatToString(i)
  }

  /** Python's `int(s)`, restricted to an optional `-` followed by decimal
      digits; `None` where Python raises `ValueError`. */
  function ParseInt(s: string): (r: Option<int>)
    ensures r.Some? ==> |s| >= 1 && '.' !in s && '/' !in s
  {
    if |s| >= 1 && s[0] == '-' then
      if IsDigits(s[1..]) then Some(0 - DigitsValue(s[1..]) as int) else None
    else if IsDigits(s) then Some(DigitsValue(s))
    else None
  }

  /** `[int(p) for p in pieces]`: `None` as soon as one piece does not parse. */
  function ParseInts(pieces: seq<string>): (r: Option<seq<int>>)
    ensures r.Some? ==> |r.value| == |pieces|
    ensures r.Some? ==> forall i :: 0 <= i < |pieces| ==> ParseInt(pieces[i]) == Some(r.value[i])
    ensures r.None? ==> exists i :: 0 <= i < |pieces| && ParseInt(pieces[i]).None?
  {
    if pieces == [] then Some([])
    else match ParseInt(pieces[0])
      case None => None
      case Some(v) =>
        match ParseInts(pieces[1..])
        case None => None
        case Some(vs) => Some([v] + vs)
  }

  /** `[str(s) for s in xs]` */
  function IntTexts(xs: seq<int>): (ts: seq<string>)
    ensures |ts| == |xs|
    ensures forall i :: 0 <= i < |xs| ==> ts[i] == IntToString(xs[i])
  {
    if xs == [] then [] else [IntToString(xs[0])] + IntTexts(xs[1..])
  }

  /** `'.'.join([str(s) for s in xs])`: the dotted form of an address. */
  function Dotted(xs: seq<int>): string
    requires |xs| >= 1
  {
    Join(IntTexts(xs), '.')
  }

  /** Reading back the decimal rendering of a natural number. */
  lemma {:induction false} NatRoundTrip(n: nat)
    ensures DigitsValue(NatToString(n)) == n
  {
    if n >= 10 {
      NatRoundTrip(n / 10);
      var s := NatToString(n);
      assert s[..|s| - 1] == NatToString(n / 10);
    }
  }

  /** `int(str(i)) == i` for every integer. */
  lemma IntRoundTrip(i: int)
    ensures ParseInt(IntToString(i)) == Some(i)
  {
    if i < 0 {
      var t := NatToString(-i);
      var s := "-" + t;
      assert IntToString(i) == s;
      assert s[0] == '-' && s[1..] == t;
      NatRoundTrip(-i);
      assert ParseInt(s) == Some(0 - DigitsValue(t));
    } else {
      var t := NatToString(i);
      assert IntToString(i) == t;
      assert IsDigit(t[0]) && t[0] != '-';
      NatRoundTrip(i);
      assert ParseInt(t) == Some(DigitsValue(t));
    }
  }

  /** Parsing every piece of a list of renderings gives the integers back. */
  lemma {:induction false} IntTextsRoundTrip(xs: seq<int>)
    ensures ParseInts(IntTexts(xs)) == Some(xs)
  {
    if xs != [] {
      IntRoundTrip(xs[0]);
      IntTextsRoundTrip(xs[1..]);
      var ts := IntTexts(xs);
      assert ts[0] == IntToString(xs[0]);
      assert ts[1..] == IntTexts(xs[1..]);
      assert ParseInts(ts) == Some([xs[0]] + xs[1..]);
      assert [xs[0]] + xs[1..] == xs;
    }
  }

  /** Splitting a dotted address on `.` gives the octet renderings. */
  lemma SplitDotted(xs: seq<int>)
    requires |xs| >= 1
    ensures Split(Dotted(xs), '.') == IntTexts(xs)
    ensures '/' !in Dotted(xs)
    ensures |xs| >= 2 ==> '.' in Dotted(xs)
  {
    SplitJoin(IntTexts(xs), '.');
    SplitWithoutSlash(IntTexts(xs));
    if |xs| >= 2 {
      SplitCount(Dotted(xs), '.');
    }
  }

  lemma {:induction false} SplitWithoutSlash(ts: seq<string>)
    requires |ts| >= 1
    requires forall i :: 0 <= i < |ts| ==> '/' !in ts[i]
    ensures '/' !in Join(ts, '.')
  {
    if |ts| > 1 {
      SplitWithoutSlash(ts[1..]);
    }
  }

  /** The dotted rendering is injective: comparing dotted strings compares
      the octet lists. */
  lemma DottedInjective(xs: seq<int>, ys: seq<int>)
    requires |xs| >= 1 && |ys| >= 1
    ensures Dotted(xs) == Dotted(ys) <==> xs == ys
  {
    if Dotted(xs) == Dotted(ys) {
      SplitDotted(xs);
      SplitDotted(ys);
      IntTextsRoundTrip(xs);
      IntTextsRoundTrip(ys);
    }
  }
}
