/** The command-line helpers: Swift's `Int(String)` as the handlers use it,
    the argument-count check shared by `add`, `set` and `del`, and the
    path expansion applied to `load` arguments. The home directory and the
    current directory are parameters rather than environment lookups. */
module CommandLineParser {
  import opened Wrappers

  /** The range of Swift's 64-bit `Int`. */
  const IntMin: int := -0x8000_0000_0000_0000
  const IntMax: int := 0x7FFF_FFFF_FFFF_FFFF

  predicate IsDigit(c: char)
  {
    '0' <= c <= '9'
  }

  predicate AllDigits(s: string)
  {
    forall i :: 0 <= i < |s| ==> IsDigit(s[i])
  }

  function DigitValue(c: char): (d: nat)
    requires IsDigit(c)
    ensures d < 10
  {
    (c as int) - ('0' as int)
  }

  function DigitChar(d: nat): (c: char)
    requires d < 10
    ensures IsDigit(c) && DigitValue(c) == d
  {
    (('0' as int) + d) as char
  }

  /** The value of a decimal digit string, most significant digit first. */
  function DigitsValue(s: string): nat
    requires AllDigits(s)
  {
    if |s| == 0 then 0 else DigitsValue(s[..|s| - 1]) * 10 + DigitValue(s[|s| - 1])
  }

  /** The sign Swift accepts in front of the digits, and the digits after it. */
  function SplitSign(s: string): (r: (bool, string))
    ensures |s| > 0 && s[0] == '-' ==> r == (true, s[1..])
    ensures |s| > 0 && s[0] == '+' ==> r == (false, s[1..])
    ensures (|s| == 0 || (s[0] != '-' && s[0] != '+')) ==> r == (false, s)
  {
    if |s| > 0 && s[0] == '-' then (true, s[1..])
    else if |s| > 0 && s[0] == '+' then (false, s[1..])
    else (false, s)
  }

  /** Swift's `Int(_: String)`: an optional sign followed by at least one
      ASCII digit and nothing else, whose value fits in 64 bits. Leading
      zeros are accepted; whitespace is not. */
  function ParseInt(s: string): (r: Option<int>)
    ensures r.Some? ==> IntMin <= r.value <= IntMax
    ensures r.Some? ==> |s| > 0 && AllDigits(SplitSign(s).1) && |SplitSign(s).1| > 0
    ensures |s| > 0 && AllDigits(s) ==>
              (r.Some? <==> DigitsValue(s) <= IntMax) && (r.Some? ==> r.value == DigitsValue(s))
    ensures |s| > 1 && s[0] == '+' && AllDigits(s[1..]) ==>
              (r.Some? <==> DigitsValue(s[1..]) <= IntMax) && (r.Some? ==> r.value == DigitsValue(s[1..]))
    ensures |s| > 1 && s[0] == '-' && AllDigits(s[1..]) ==>
              (r.Some? <==> DigitsValue(s[1..]) <= -IntMin) && (r.Some? ==> r.value == 0 - (DigitsValue(s[1..]) as int))
  {
    var (negative, digits) := SplitSign(s);
    if |digits| == 0 || !AllDigits(digits) then None
    else
      var v: int := if negative then 0 - (DigitsValue(digits) as int) else DigitsValue(digits);
      if IntMin <= v <= IntMax then Some(v) else None
  }

  /** The decimal rendering of a natural number, without leading zeros. */
  function ShowNat(n: nat): (s: string)
    ensures |s| > 0 && AllDigits(s)
    decreases n
  {
    if n < 10 then [DigitChar(n)] else ShowNat(n / 10) + [DigitChar(n % 10)]
  }

  /** The decimal rendering Swift's `String(Int)` produces. */
  function ShowInt(i: int): (s: string)
    ensures |s| > 0 && (s[0] == '-' <==> i < 0)
    ensures |SplitSign(s).1| > 0 && AllDigits(SplitSign(s).1)
  {
    if i < 0 then "-" + ShowNat(-i) else ShowNat(i)
  }

  lemma {:induction false} DigitsOfShowNat(n: nat)
    ensures DigitsValue(ShowNat(n)) == n
    decreases n
  {
    var s := ShowNat(n);
    if n >= 10 {
      DigitsOfShowNat(n / 10);
      assert s[..|s| - 1] == ShowNat(n / 10);
    }
  }

  /** Every 64-bit integer survives rendering and parsing back. */
  lemma ParseShowRoundTrip(i: int)
    requires IntMin <= i <= IntMax
    ensures ParseInt(ShowInt(i)) == Some(i)
  {
    if i < 0 {
      DigitsOfShowNat(-i);
      assert SplitSign(ShowInt(i)) == (true, ShowNat(-i));
    } else {
      DigitsOfShowNat(i);
      assert SplitSign(ShowInt(i)) == (false, ShowNat(i));
    }
  }

  /** Signs and leading zeros as Swift reads them. */
  lemma ParseIntExamples()
    ensures ParseInt("+5") == Some(5)
    ensures ParseInt("-007") == Some(-7)
    ensures ParseInt("") == None && ParseInt("-") == None && ParseInt("+-1") == None
  {
    assert "+5"[1..] == "5";
    assert "-007"[1..] == "007";
    assert "007"[..2] == "00" && "00"[..1] == "0" && "0"[..0] == "";
    assert "+-1"[1..] == "-1";
    assert !IsDigit("-1"[0]);
  }

  /** A string holding a character other than a sign or a digit is refused. */
  lemma ParseIntRefusesStrangers(s: string, j: nat)
    requires j < |s| && !IsDigit(s[j]) && s[j] != '-' && s[j] != '+'
    ensures ParseInt(s) == None
  {
    var digits := SplitSign(s).1;
    if |s| > 0 && (s[0] == '-' || s[0] == '+') {
      assert j > 0 && digits[j - 1] == s[j];
    } else {
      assert digits[j] == s[j];
    }
  }

  /** `validFormat`: at least `count` arguments and the first one parses as an
      `Int`. Reading the first argument of an empty list traps in Swift, so a
      caller must ask for at least one argument or supply one. */
  function ValidFormat(params: seq<string>, count: int): (r: bool)
    requires count >= 1 || |params| >= 1
    ensures r ==> |params| >= 1 && |params| >= count && ParseInt(params[0]).Some?
    ensures |params| >= count && |params| >= 1 && ParseInt(params[0]).Some? ==> r
  {
    |params| >= count && ParseInt(params[0]).Some?
  }

  /** A rendered 64-bit integer in front of enough further arguments passes
      the format check, and a first argument with any character other than a
      sign or a digit fails it. */
  lemma ValidFormatOfShown(i: int, rest: seq<string>, count: int)
    requires IntMin <= i <= IntMax && count <= 1 + |rest|
    ensures ValidFormat([ShowInt(i)] + rest, count)
  {
    ParseShowRoundTrip(i);
  }

  lemma ValidFormatRefusesStrangers(params: seq<string>, count: int, j: nat)
    requires |params| >= 1 && j < |params[0]|
    requires !IsDigit(params[0][j]) && params[0][j] != '-' && params[0][j] != '+'
    ensures !ValidFormat(params, count)
  {
    ParseIntRefusesStrangers(params[0], j);
  }

  /** `replacingOccurrences(of: "~", with: home)`: every tilde becomes the
      home directory, every other character is kept in place. */
  function ReplaceTilde(s: string, home: string): (r: string)
    ensures '~' !in s ==> r == s
    ensures '~' !in home ==> '~' !in r
    ensures |s| > 0 && s[0] == '~' ==> home <= r
    ensures |s| > 0 && s[0] != '~' ==> |r| > 0 && r[0] == s[0]
  {
    if |s| == 0 then []
    else (if s[0] == '~' then home else [s[0]]) + ReplaceTilde(s[1..], home)
  }

  /** The expansion works character by character: a tilde becomes the home
      directory and any other character stays, and the expansion of a
      concatenation is the concatenation of the expansions. */
  lemma {:induction false} ReplaceTildeConcat(a: string, b: string, home: string)
    ensures ReplaceTilde(a + b, home) == ReplaceTilde(a, home) + ReplaceTilde(b, home)
    ensures |a| == 1 ==> ReplaceTilde(a, home) == if a[0] == '~' then home else a
    decreases |a|
  {
    if |a| > 0 {
      assert (a + b)[0] == a[0] && (a + b)[1..] == a[1..] + b;
      ReplaceTildeConcat(a[1..], b, home);
      if |a| == 1 {
        assert a[1..] == [] && a == [a[0]];
      }
    } else {
      assert a + b == b;
    }
  }

  /** Replacing a tilde by a tilde changes nothing. */
  lemma {:induction false} ReplaceTildeWithTilde(s: string)
    ensures ReplaceTilde(s, "~") == s
  {
    if |s| > 0 {
      ReplaceTildeWithTilde(s[1..]);
    }
  }

  /** `getCommand`: a path holding a tilde has every tilde expanded; otherwise a
      path not starting with '/' (the empty path included) is taken relative to
      the current directory; an absolute path is kept. */
  function GetCommand(input: string, home: string, cwd: string): (r: string)
    ensures '~' in input ==> r == ReplaceTilde(input, home)
    ensures '~' !in input && |input| > 0 && input[0] == '/' ==> r == input
    ensures '~' !in input && (|input| == 0 || input[0] != '/') ==> r == cwd + "/" + input
  {
    if '~' in input then ReplaceTilde(input, home)
    else if |input| == 0 || input[0] != '/' then cwd + "/" + input
    else input
  }

  /** An environment whose home and current directories are absolute and
      tilde-free. */
  predicate SaneEnvironment(home: string, cwd: string)
  {
    |home| > 0 && home[0] == '/' && '~' !in home &&
    |cwd| > 0 && cwd[0] == '/' && '~' !in cwd
  }

  /** In a sane environment a tilde-free path, or one starting with a tilde,
      comes out absolute and tilde-free. */
  lemma GetCommandAbsolute(input: string, home: string, cwd: string)
    requires SaneEnvironment(home, cwd)
    requires '~' !in input || input[0] == '~'
    ensures var r := GetCommand(input, home, cwd); |r| > 0 && r[0] == '/' && '~' !in r
  {
    if '~' in input {
      var r := ReplaceTilde(input, home);
      assert home <= r && r[0] == home[0];
    } else if |input| == 0 || input[0] != '/' {
      assert (cwd + "/" + input)[0] == cwd[0];
      forall c | c in cwd + "/" + input
        ensures c != '~'
      {
      }
    }
  }

  /** Expanding an already expanded path changes nothing. */
  lemma GetCommandIdempotent(input: string, home: string, cwd: string)
    requires SaneEnvironment(home, cwd)
    requires '~' !in input || input[0] == '~'
    ensures GetCommand(GetCommand(input, home, cwd), home, cwd) == GetCommand(input, home, cwd)
  {
    GetCommandAbsolute(input, home, cwd);
  }
}
