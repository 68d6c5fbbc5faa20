/**
 * Command-line validation (`ValidateArguments`, Program.cs lines 62-96): exactly
 * four arguments, three of them resolvable paths and the third a positive
 * 32-bit integer as `int.TryParse` reads it.  Path resolution
 * (`Path.GetFullPath`) is a platform call and is passed in as a function that
 * either yields the absolute path or fails.
 */
module Arguments {
  import opened Wrappers

  /** The validated settings: source, replica, interval in seconds, log file. */
  datatype Config = Config(source: string, replica: string, interval: int, logFile: string)

  datatype ArgError =
    | WrongCount      // line 70: not exactly four arguments
    | InvalidPath     // lines 83-87: Path.GetFullPath threw
    | InvalidInterval // lines 90-94: not an integer, or not positive

  /** What `ValidateArguments` decides: the settings, or why they were refused. */
  datatype Validation = Valid(config: Config) | Invalid(error: ArgError)

  const Int32Min: int := -0x8000_0000
  const Int32Max: int := 0x7fff_ffff

  /** White space accepted around a number by `NumberStyles.Integer`. */
  predicate IsWhite(c: char)
  {
    c == ' ' || '\t' <= c <= '\r'
  }

  predicate IsDigit(c: char)
  {
    '0' <= c <= '9'
  }

  predicate AllDigits(s: string)
  {
    forall i :: 0 <= i < |s| ==> IsDigit(s[i])
  }

  function TrimStart(s: string): string
  {
    if |s| > 0 && IsWhite(s[0]) then TrimStart(s[1..]) else s
  }

  function TrimEnd(s: string): string
  {
    if |s| > 0 && IsWhite(s[|s| - 1]) then TrimEnd(s[..|s| - 1]) else s
  }

  /** The value of a string of decimal digits, most significant first. */
  function DigitsValue(s: string): nat
    requires AllDigits(s)
  {
    if |s| == 0 then 0 else 10 * DigitsValue(s[..|s| - 1]) + (s[|s| - 1] as int - '0' as int)
  }

  /**
   * `int.TryParse(s, out n)`: optional white space, an optional sign, at least
   * one decimal digit, optional white space, and a value that fits in 32 bits.
   */
  function ParseInt32(s: string): (r: Option<int>)
    ensures r.Some? ==> Int32Min <= r.value <= Int32Max
  {
    var t := TrimEnd(TrimStart(s));
    var signed := |t| > 0 && (t[0] == '-' || t[0] == '+');
    var digits := if signed then t[1..] else t;
    if |digits| == 0 || !AllDigits(digits) then None
    else
      var n: int := if signed && t[0] == '-' then -(DigitsValue(digits) as int) else DigitsValue(digits);
      if Int32Min <= n <= Int32Max then Some(n) else None
  }

  /** How a non-negative number is written in decimal, without sign or padding. */
  function Decimal(n: nat): (r: string)
    ensures |r| > 0 && AllDigits(r)
  {
    if n < 10 then [(48 + n) as char] else Decimal(n / 10) + [(48 + n % 10) as char]
  }

  lemma {:induction false} DecimalValue(n: nat)
    ensures DigitsValue(Decimal(n)) == n
  {
    if n >= 10 {
      var d := Decimal(n);
      assert d[..|d| - 1] == Decimal(n / 10);
      DecimalValue(n / 10);
    }
  }

  /** Parsing the decimal form of a number in range gives the number back. */
  lemma ParseDecimal(n: nat)
    requires n <= Int32Max
    ensures ParseInt32(Decimal(n)) == Some(n)
  {
    var d := Decimal(n);
    assert TrimStart(d) == d;
    assert TrimEnd(d) == d;
    DecimalValue(n);
  }

  /**
   * The checks of lines 70-95 in their order: the argument count, then the three
   * paths, then the interval.
   */
  function ValidateArguments(args: seq<string>, fullPath: string -> Option<string>): (r: Validation)
    ensures r.Valid? <==>
      && |args| == 4
      && fullPath(args[0]).Some? && fullPath(args[1]).Some? && fullPath(args[3]).Some?
      && ParseInt32(args[2]).Some? && ParseInt32(args[2]).value > 0
    ensures r.Valid? ==>
      r.config == Config(fullPath(args[0]).value, fullPath(args[1]).value, ParseInt32(args[2]).value, fullPath(args[3]).value)
    ensures r.Valid? ==> r.config.interval > 0
    ensures |args| != 4 <==> r == Invalid(WrongCount)
    ensures r == Invalid(InvalidPath) <==>
      |args| == 4 && (fullPath(args[0]).None? || fullPath(args[1]).None? || fullPath(args[3]).None?)
  {
    if |args| != 4 then Invalid(WrongCount)
    else
      var source, replica, logFile := fullPath(args[0]), fullPath(args[1]), fullPath(args[3]);
      if source.None? || replica.None? || logFile.None? then Invalid(InvalidPath)
      else
        var interval := ParseInt32(args[2]);
        if interval.None? || interval.value <= 0 then Invalid(InvalidInterval)
        else Valid(Config(source.value, replica.value, interval.value, logFile.value))
  }

  /**
   * Every positive 32-bit interval written in decimal is accepted, together with
   * the resolved paths, once the three paths resolve.
   */
  lemma AcceptsPositiveInterval(args: seq<string>, fullPath: string -> Option<string>, n: nat)
    requires |args| == 4 && 0 < n <= Int32Max && args[2] == Decimal(n)
    requires fullPath(args[0]).Some? && fullPath(args[1]).Some? && fullPath(args[3]).Some?
    ensures ValidateArguments(args, fullPath)
         == Valid(Config(fullPath(args[0]).value, fullPath(args[1]).value, n, fullPath(args[3]).value))
  {
    ParseDecimal(n);
  }

  /** A minus sign before the decimal form of a number in range parses to its negation. */
  lemma ParseNegative(n: nat)
    requires n <= -Int32Min
    ensures ParseInt32("-" + Decimal(n)) == Some(-(n as int))
  {
    var d := Decimal(n);
    var s := "-" + d;
    assert TrimStart(s) == s;
    assert s[|s| - 1] == d[|d| - 1];
    assert TrimEnd(s) == s;
    assert s[1..] == d;
    DecimalValue(n);
  }

  /**
   * An interval of zero, or a negative one written with a minus sign, is
   * refused: for the interval when the paths resolve, for a path otherwise.
   */
  lemma RejectsNonPositiveInterval(args: seq<string>, fullPath: string -> Option<string>, n: nat)
    requires |args| == 4 && n <= -Int32Min && (args[2] == "-" + Decimal(n) || args[2] == Decimal(0))
    ensures ValidateArguments(args, fullPath).Invalid?
    ensures fullPath(args[0]).Some? && fullPath(args[1]).Some? && fullPath(args[3]).Some? ==>
              ValidateArguments(args, fullPath) == Invalid(InvalidInterval)
  {
    if args[2] == Decimal(0) {
      ParseDecimal(0);
    } else {
      ParseNegative(n);
    }
  }
}
