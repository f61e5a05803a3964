/**
 * The text `genIdString` builds for a SQL `in (...)` clause: the decimal rendering
 * of each id, as `StringBuffer.append(int)` writes it, separated by commas. The
 * parsing functions here exist only to state that the text determines the ids.
 */
module IdStrings {
  import opened JavaLang

  predicate IsDigit(c: char)
  {
    '0' <= c <= '9'
  }

  /** The decimal digits of `n`, most significant first, without leading zeros. */
  function Digits(n: nat): (s: string)
    ensures |s| >= 1
    ensures forall i :: 0 <= i < |s| ==> IsDigit(s[i])
    ensures s[0] == '0' ==> n == 0
    decreases n
  {
    var last := ['0' + (n % 10) as char];
    if n < 10 then last else Digits(n / 10) + last
  }

  /** `Integer.toString(x)`: a minus sign for a negative `x`, then the digits of `|x|`. */
  function Decimal(x: int): (s: string)
    ensures |s| >= 1 && ',' !in s
  {
    if x < 0 then "-" + Digits(-x) else Digits(x)
  }

  /** The value of a string of decimal digits. */
  function DigitsValue(s: string): nat
    requires forall i :: 0 <= i < |s| ==> IsDigit(s[i])
  {
    if s == [] then 0
    else
      var c := s[|s| - 1];
      assert IsDigit(c);
      DigitsValue(s[..|s| - 1]) * 10 + (c as int - '0' as int)
  }

  /** Reading back the digits of `n` gives `n`. */
  lemma {:induction false} DigitsRoundTrip(n: nat)
    ensures DigitsValue(Digits(n)) == n
    decreases n
  {
    var s := Digits(n);
    if n >= 10 {
      DigitsRoundTrip(n / 10);
      assert s[..|s| - 1] == Digits(n / 10);
    }
  }

  /** The value of `Integer.toString`'s output. */
  function DecimalValue(s: string): int
    requires |s| >= 1
    requires forall i :: 0 <= i < |s| ==> IsDigit(s[i]) || (i == 0 && s[i] == '-')
  {
    if s[0] == '-' then -(DigitsValue(s[1..]) as int) else DigitsValue(s)
  }

  /** Reading back the decimal rendering of `x` gives `x`: the rendering is one-to-one. */
  lemma DecimalRoundTrip(x: int)
    ensures var s := Decimal(x);
      && (forall i :: 0 <= i < |s| ==> IsDigit(s[i]) || (i == 0 && s[i] == '-'))
      && DecimalValue(s) == x
  {
    if x < 0 {
      DigitsRoundTrip(-x);
      assert Decimal(x)[1..] == Digits(-x);
    } else {
      DigitsRoundTrip(x);
    }
  }

  /** The parts separated by single commas: the text starts with the first part. */
  function Join(parts: seq<string>): (r: string)
    ensures parts == [] ==> r == ""
    ensures parts != [] ==> parts[0] <= r
  {
    if parts == [] then ""
    else if |parts| == 1 then parts[0]
    else parts[0] + "," + Join(parts[1..])
  }

  /** The decimal renderings of the ids, in order. */
  function Renderings(ids: seq<int32>): (parts: seq<string>)
    ensures |parts| == |ids|
    ensures forall i :: 0 <= i < |ids| ==> parts[i] == Decimal(ids[i])
  {
    seq(|ids|, i requires 0 <= i < |ids| => Decimal(ids[i]))
  }

  /** The text `genIdString` returns for the ids: empty exactly when there are none. */
  function IdList(ids: seq<int32>): (r: string)
    ensures r == "" <==> ids == []
  {
    JoinEmpty(Renderings(ids));
    Join(Renderings(ids))
  }

  /** Appending one more part puts a comma before it exactly when there are parts already. */
  lemma {:induction false} JoinSnoc(parts: seq<string>, x: string)
    ensures Join(parts + [x]) == if parts == [] then x else Join(parts) + "," + x
    decreases |parts|
  {
    if |parts| >= 2 {
      JoinSnoc(parts[1..], x);
      assert (parts + [x])[1..] == parts[1..] + [x];
    } else if |parts| == 1 {
      assert (parts + [x])[1..] == [x];
    }
  }

  /** Joining non-empty parts gives a non-empty text. */
  lemma JoinEmpty(parts: seq<string>)
    requires forall i :: 0 <= i < |parts| ==> |parts[i]| >= 1
    ensures |Join(parts)| == 0 <==> parts == []
  {
  }

  /** The position of the first comma in `s`, or `|s|` when there is none. */
  function CommaAt(s: string): (k: nat)
    ensures k <= |s|
    ensures forall i :: 0 <= i < k ==> s[i] != ','
    ensures k < |s| ==> s[k] == ','
  {
    if s == [] || s[0] == ',' then 0 else 1 + CommaAt(s[1..])
  }

  /** The pieces of `s` between commas. */
  function Split(s: string): (parts: seq<string>)
    ensures |parts| >= 1
    decreases |s|
  {
    var k := CommaAt(s);
    if k == |s| then [s] else [s[..k]] + Split(s[k + 1..])
  }

  /** Splitting a comma-separated text gives back the parts, when no part holds a comma. */
  lemma {:induction false} SplitJoin(parts: seq<string>)
    requires parts != []
    requires forall i :: 0 <= i < |parts| ==> ',' !in parts[i]
    ensures Split(Join(parts)) == parts
    decreases |parts|
  {
    var p := parts[0];
    if |parts| == 1 {
      assert CommaAt(p) == |p|;
    } else {
      var s := Join(parts);
      assert s == p + "," + Join(parts[1..]);
      CommaAtPrefix(p, Join(parts[1..]));
      assert s[..|p|] == p && s[|p| + 1..] == Join(parts[1..]);
      SplitJoin(parts[1..]);
    }
  }

  /** The first comma of `p + "," + rest` is the one after `p` when `p` has none. */
  lemma {:induction false} CommaAtPrefix(p: string, rest: string)
    requires ',' !in p
    ensures CommaAt(p + "," + rest) == |p|
    decreases |p|
  {
    if p != [] {
      assert (p + "," + rest)[1..] == p[1..] + "," + rest;
      CommaAtPrefix(p[1..], rest);
    }
  }

  /** The ids a comma-separated list of decimal renderings names. */
  function ParseIds(s: string): seq<int>
  {
    if s == [] then []
    else
      var parts := Split(s);
      seq(|parts|, i requires 0 <= i < |parts| =>
        if |parts[i]| >= 1 && forall j :: 0 <= j < |parts[i]| ==> IsDigit(parts[i][j]) || (j == 0 && parts[i][j] == '-')
        then DecimalValue(parts[i]) else 0)
  }

  /**
   * The text `genIdString` builds is the renderings of the ids, in order, each
   * between single commas (no leading, trailing or doubled comma, since every
   * rendering is non-empty and comma-free), and it names exactly the ids it was given.
   */
  lemma ParseIdList(ids: seq<int32>)
    ensures ids != [] ==> Split(IdList(ids)) == Renderings(ids)
    ensures forall i :: 0 <= i < |ids| ==> |Renderings(ids)[i]| >= 1 && ',' !in Renderings(ids)[i]
    ensures ParseIds(IdList(ids)) == ids
  {
    var parts := Renderings(ids);
    if ids != [] {
      SplitJoin(parts);
      JoinEmpty(parts);
      forall i | 0 <= i < |ids|
        ensures ParseIds(IdList(ids))[i] == ids[i]
      {
        DecimalRoundTrip(ids[i]);
      }
    }
  }
}
