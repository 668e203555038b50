/**
 * The text operations the selector strings are built with: Python's `str(n)`
 * for an integer and `sep.join(parts)`, together with their inverses
 * (`str.split(sep)` and a decimal reader) used to show the texts can be read back.
 */
module Text {
  import opened Options

  predicate IsDigit(c: char) {
    '0' <= c <= '9'
  }

  predicate AllDigits(s: string) {
    forall i :: 0 <= i < |s| ==> IsDigit(s[i])
  }

  function DigitChar(d: nat): (c: char)
    requires d < 10
    ensures IsDigit(c) && c as int - '0' as int == d
  {
    "0123456789"[d]
  }

  /** Decimal digits of `n`, most significant first, without leading zeros. */
  function NatToDecimal(n: nat): (r: string)
    ensures |r| > 0 && AllDigits(r)
    ensures r[0] == '0' ==> n == 0
    decreases n
  {
    if n < 10 then [DigitChar(n)] else NatToDecimal(n / 10) + [DigitChar(n % 10)]
  }

  /** Python's `str(n)` for an integer: a minus sign for negatives, then the digits. */
  function IntToString(n: int): (r: string)
    ensures |r| > 0 && (r[0] == '-' <==> n < 0)
  {
    if n < 0 then "-" + NatToDecimal(-n) else NatToDecimal(n)
  }

  /** The value of a string of decimal digits. */
  function DecimalValue(s: string): nat
    requires AllDigits(s)
  {
    if s == [] then 0
    else DecimalValue(s[..|s| - 1]) * 10 + (s[|s| - 1] as int - '0' as int)
  }

  /** Reads an optionally negative decimal integer; `None` for anything else. */
  function ParseInt(s: string): Option<int> {
    if |s| > 1 && s[0] == '-' && AllDigits(s[1..]) then Some(-(DecimalValue(s[1..]) as int))
    else if |s| > 0 && AllDigits(s) then Some(DecimalValue(s))
    else None
  }

  lemma {:induction false} DecimalRoundTrip(n: nat)
    ensures DecimalValue(NatToDecimal(n)) == n
    decreases n
  {
    if n >= 10 {
      var s := NatToDecimal(n);
      assert s[..|s| - 1] == NatToDecimal(n / 10);
      DecimalRoundTrip(n / 10);
    }
  }

  /** `str(n)` is read back as `n`. */
  lemma IntToStringRoundTrip(n: int)
    ensures ParseInt(IntToString(n)) == Some(n)
  {
    var s := IntToString(n);
    var digits := NatToDecimal(if n < 0 then -n else n);
    DecimalRoundTrip(if n < 0 then -n else n);
    if n < 0 {
      assert s == "-" + digits;
      assert s[1..] == digits;
      assert ParseInt(s) == Some(-(DecimalValue(digits) as int));
    } else {
      assert s == digits;
      assert IsDigit(s[0]);
    }
  }

  /** `str(n)` never contains the separators the selectors are joined with. */
  lemma IntToStringHasNoSeparator(n: int)
    ensures ',' !in IntToString(n) && ' ' !in IntToString(n)
  {
    var s := IntToString(n);
    var digits := NatToDecimal(if n < 0 then -n else n);
    forall i | 0 <= i < |s| ensures s[i] != ',' && s[i] != ' ' {
      if n < 0 && i > 0 {
        assert s[i] == digits[i - 1];
      }
    }
  }

  /** Python's `sep.join(parts)`. */
  function Join(parts: seq<string>, sep: char): string {
    if |parts| == 0 then ""
    else if |parts| == 1 then parts[0]
    else parts[0] + [sep] + Join(parts[1..], sep)
  }

  /** Python's `s.split(sep)`: the pieces between separators, empty ones included. */
  function Split(s: string, sep: char): (r: seq<string>)
    ensures |r| > 0
  {
    if s == [] then [[]]
    else
      var rest := Split(s[1..], sep);
      if s[0] == sep then [[]] + rest else [[s[0]] + rest[0]] + rest[1..]
  }

  lemma {:induction false} SplitAfterPiece(p: string, t: string, sep: char)
    requires sep !in p
    ensures Split(p + t, sep) == [p + Split(t, sep)[0]] + Split(t, sep)[1..]
  {
    if p != [] {
      assert (p + t)[1..] == p[1..] + t;
      SplitAfterPiece(p[1..], t, sep);
      assert [p[0]] + (p[1..] + Split(t, sep)[0]) == p + Split(t, sep)[0];
    } else {
      var r := Split(t, sep);
      assert p + t == t;
      assert p + r[0] == r[0];
      assert r == [r[0]] + r[1..];
    }
  }

  /** Splitting a join on the same separator gives the parts back. */
  lemma {:induction false} SplitJoin(parts: seq<string>, sep: char)
    requires |parts| > 0
    requires forall k :: 0 <= k < |parts| ==> sep !in parts[k]
    ensures Split(Join(parts, sep), sep) == parts
  {
    if |parts| == 1 {
      SplitAfterPiece(parts[0], [], sep);
      assert parts[0] + [] == parts[0];
    } else {
      var rest := Join(parts[1..], sep);
      assert parts[0] + [sep] + rest == parts[0] + ([sep] + rest);
      SplitAfterPiece(parts[0], [sep] + rest, sep);
      assert ([sep] + rest)[1..] == rest;
      assert Split([sep] + rest, sep) == [[]] + Split(rest, sep);
      SplitJoin(parts[1..], sep);
      assert parts[0] + [] == parts[0];
      assert parts == [parts[0]] + parts[1..];
    }
  }

  /** `[str(n) for n in ns]`. */
  function Decimals(ns: seq<int>): seq<string> {
    if ns == [] then [] else [IntToString(ns[0])] + Decimals(ns[1..])
  }

  /** `",".join(str(n) for n in ns)`, the residue list of a chain selector. */
  function NumberList(ns: seq<int>): string {
    Join(Decimals(ns), ',')
  }

  /** Reads every piece as an integer; `None` if any piece is not one. */
  function ParseAll(pieces: seq<string>): Option<seq<int>> {
    if pieces == [] then Some([])
    else
      var head, tail := ParseInt(pieces[0]), ParseAll(pieces[1..]);
      if head.Some? && tail.Some? then Some([head.value] + tail.value) else None
  }

  /** Reads a comma-separated residue list back into numbers. */
  function ParseNumberList(s: string): Option<seq<int>> {
    ParseAll(Split(s, ','))
  }

  lemma {:induction false} ParseAllDecimals(ns: seq<int>)
    ensures ParseAll(Decimals(ns)) == Some(ns)
  {
    if ns != [] {
      var d := Decimals(ns);
      IntToStringRoundTrip(ns[0]);
      assert d[1..] == Decimals(ns[1..]);
      ParseAllDecimals(ns[1..]);
      assert [ns[0]] + ns[1..] == ns;
    }
  }

  lemma {:induction false} DecimalsAt(ns: seq<int>, k: nat)
    requires k < |ns|
    ensures |Decimals(ns)| == |ns| && Decimals(ns)[k] == IntToString(ns[k])
  {
    if k > 0 {
      DecimalsAt(ns[1..], k - 1);
    } else if |ns| > 1 {
      DecimalsAt(ns[1..], 0);
    }
  }

  /** A non-empty residue list is read back as exactly the numbers it was built from. */
  lemma NumberListRoundTrip(ns: seq<int>)
    requires |ns| > 0
    ensures ParseNumberList(NumberList(ns)) == Some(ns)
  {
    DecimalsAt(ns, 0);
    forall k | 0 <= k < |Decimals(ns)| ensures ',' !in Decimals(ns)[k] {
      DecimalsAt(ns, k);
      IntToStringHasNoSeparator(ns[k]);
    }
    SplitJoin(Decimals(ns), ',');
    ParseAllDecimals(ns);
  }
}
