/** Decimal numbers and separators in text: what `std::to_string`,
    `operator<<` on an integer, `std::stoul`/`std::stoull` and a
    `std::getline` loop with a separator do to strings. */
module Text {
  import opened Wrappers
  import opened Arith

  predicate IsDigit(c: char)
  {
    '0' <= c <= '9'
  }

  /** is_numeric: every character is a decimal digit (true for ""). */
  predicate IsNumeric(s: seq<char>)
  {
    forall i :: 0 <= i < |s| ==> IsDigit(s[i])
  }

  function DigitValue(c: char): nat
    requires IsDigit(c)
  {
    (c as int) - ('0' as int)
  }

  function DigitChar(d: nat): (c: char)
    requires d < 10
    ensures IsDigit(c) && DigitValue(c) == d
  {
    ('0' as int + d) as char
  }

  /** The value of a string of digits, most significant first. */
  function Value(s: seq<char>): nat
    requires IsNumeric(s)
  {
    if |s| == 0 then 0 else Value(s[..|s| - 1]) * 10 + DigitValue(s[|s| - 1])
  }

  /** The decimal representation of `n`, without leading zeros. */
  function Decimal(n: nat): (s: seq<char>)
    ensures |s| > 0 && IsNumeric(s)
  {
    if n < 10 then [DigitChar(n)] else Decimal(n / 10) + [DigitChar(n % 10)]
  }

  /** Reading the decimal representation back gives the number; it has
      no leading zero and holds neither a separator nor a space. */
  lemma {:induction false} DecimalValue(n: nat)
    ensures Value(Decimal(n)) == n
    ensures Decimal(n)[0] != '0' || n == 0
  {
    var s := Decimal(n);
    if n >= 10 {
      DecimalValue(n / 10);
      assert s[..|s| - 1] == Decimal(n / 10);
      assert s[0] == Decimal(n / 10)[0];
    }
  }

  /** The length of the longest prefix of `s` made of digits. */
  function DigitRun(s: seq<char>): (k: nat)
    ensures k <= |s| && IsNumeric(s[..k])
    ensures k < |s| ==> !IsDigit(s[k])
  {
    if |s| == 0 || !IsDigit(s[0]) then 0
    else
      var k := 1 + DigitRun(s[1..]);
      assert s[..k] == [s[0]] + s[1..][..k - 1];
      k
  }

  lemma DigitRunAll(s: seq<char>)
    requires IsNumeric(s)
    ensures DigitRun(s) == |s|
  {
  }

  predicate IsSpace(c: char)
  {
    c == ' ' || c == '\t' || c == '\n' || c == '\r' || c == 11 as char || c == 12 as char
  }

  /** The number of leading white-space characters. */
  function SpaceRun(s: seq<char>): (k: nat)
    ensures k <= |s|
    ensures k < |s| ==> !IsSpace(s[k])
  {
    if |s| == 0 || !IsSpace(s[0]) then 0 else 1 + SpaceRun(s[1..])
  }

  /** std::stoul / std::stoull with base 10 on a 64-bit platform: leading
      white space, an optional sign and at least one digit; the digits
      must fit in 64 bits, a minus sign negates modulo 2^64, and anything
      after the digits is ignored. None where the library throws. */
  function Stoul(s: seq<char>): (r: Option<nat>)
    ensures r.Some? ==> r.value < U64
  {
    var t := s[SpaceRun(s)..];
    var neg := |t| > 0 && t[0] == '-';
    var u := if |t| > 0 && (t[0] == '-' || t[0] == '+') then t[1..] else t;
    var k := DigitRun(u);
    if k == 0 then None
    else
      var v := Value(u[..k]);
      if v >= U64 then None
      else if neg then Some(Sub64(0, v))
      else Some(v)
  }

  /** std::stoul of the decimal representation of a 64-bit number gives
      it back. */
  lemma StoulDecimal(n: nat)
    requires n < U64
    ensures Stoul(Decimal(n)) == Some(n)
  {
    var s := Decimal(n);
    DecimalValue(n);
    DigitRunAll(s);
    assert SpaceRun(s) == 0;
    assert s[..|s|] == s;
  }

  /** On a token of digits only, std::stoull fails exactly when the token
      is empty or the value does not fit in 64 bits. */
  lemma StoulNumeric(s: seq<char>)
    requires IsNumeric(s)
    ensures Stoul(s).Some? <==> |s| > 0 && Value(s) < U64
    ensures Stoul(s).Some? ==> Stoul(s).value == Value(s)
  {
    DigitRunAll(s);
    if |s| > 0 {
      assert SpaceRun(s) == 0;
      assert s[..|s|] == s;
    }
  }

  /** The first index of `c` in `s`, or None (`std::string::find`). */
  function Find(s: seq<char>, c: char): (r: Option<nat>)
    ensures r.Some? ==> r.value < |s| && s[r.value] == c
    ensures r.Some? ==> forall i :: 0 <= i < r.value ==> s[i] != c
    ensures r.None? <==> forall i :: 0 <= i < |s| ==> s[i] != c
  {
    if |s| == 0 then None
    else if s[0] == c then Some(0)
    else match Find(s[1..], c)
      case None => None
      case Some(i) => Some(i + 1)
  }

  /** The tokens a `while (getline(ss, token, sep))` loop reads: the
      pieces between separators, where text ending in a separator (or
      empty text) yields no final empty token. */
  function Tokens(s: seq<char>, sep: char): (r: seq<seq<char>>)
    decreases |s|
  {
    if |s| == 0 then []
    else match Find(s, sep)
      case None => [s]
      case Some(i) => [s[..i]] + Tokens(s[i + 1..], sep)
  }

  /** One `getline(ss, token, sep)` on non-empty text: the token, and the
      text left after its separator. */
  function Getline(s: seq<char>, sep: char): (r: (seq<char>, seq<char>))
    requires |s| > 0
    ensures |r.1| < |s|
    ensures Tokens(s, sep) == [r.0] + Tokens(r.1, sep)
  {
    match Find(s, sep)
    case None => (s, [])
    case Some(i) => (s[..i], s[i + 1..])
  }

  /** Numbers written with `sep` between them, as an `ostream` loop
      writes them. */
  function Joined(ns: seq<nat>, sep: char): seq<char>
  {
    if |ns| == 0 then []
    else if |ns| == 1 then Decimal(ns[0])
    else Decimal(ns[0]) + [sep] + Joined(ns[1..], sep)
  }

  /** Writing one more number appends the separator and its digits. */
  lemma {:induction false} JoinedSnoc(ns: seq<nat>, n: nat, sep: char)
    requires |ns| > 0
    ensures Joined(ns + [n], sep) == Joined(ns, sep) + [sep] + Decimal(n)
  {
    var m := ns + [n];
    var d := Decimal(ns[0]);
    assert m[0] == ns[0];
    if |ns| == 1 {
      assert m[1..] == [n];
      assert Joined(m, sep) == d + [sep] + Joined([n], sep);
    } else {
      var t := Joined(ns[1..], sep);
      assert m[1..] == ns[1..] + [n];
      JoinedSnoc(ns[1..], n, sep);
      assert Joined(m, sep) == d + [sep] + (t + [sep] + Decimal(n));
      assert Joined(ns, sep) == d + [sep] + t;
    }
  }

  /** Numbers written with separators end in a digit. */
  lemma {:induction false} JoinedEndsInDigit(ns: seq<nat>, sep: char)
    requires |ns| > 0
    ensures |Joined(ns, sep)| > 0 && IsDigit(Joined(ns, sep)[|Joined(ns, sep)| - 1])
  {
    if |ns| > 1 {
      JoinedEndsInDigit(ns[1..], sep);
    }
  }

  /** Reading back numbers written with a non-digit separator gives one
      token per number, its decimal representation. */
  lemma {:induction false} TokensOfJoined(ns: seq<nat>, sep: char)
    requires !IsDigit(sep)
    ensures |Tokens(Joined(ns, sep), sep)| == |ns|
    ensures forall i :: 0 <= i < |ns| ==> Tokens(Joined(ns, sep), sep)[i] == Decimal(ns[i])
  {
    if |ns| == 1 {
      NoSeparator(Decimal(ns[0]), sep);
    } else if |ns| > 1 {
      var d := Decimal(ns[0]);
      NoSeparator(d, sep);
      TokenThenRest(d, Joined(ns[1..], sep), sep);
      TokensOfJoined(ns[1..], sep);
    }
  }

  /** Text that starts with a token and its separator splits into that
      token followed by the tokens of the rest. */
  lemma TokenThenRest(a: seq<char>, rest: seq<char>, sep: char)
    requires Find(a, sep).None?
    ensures Tokens(a + [sep] + rest, sep) == [a] + Tokens(rest, sep)
  {
    var s := a + [sep] + rest;
    assert s == a + ([sep] + rest);
    FindAfter(a, [sep] + rest, sep);
    assert s[..|a|] == a;
    assert s[|a| + 1..] == rest;
  }

  lemma NoSeparator(s: seq<char>, sep: char)
    requires IsNumeric(s) && !IsDigit(sep)
    ensures Find(s, sep).None?
    ensures |s| > 0 ==> Tokens(s, sep) == [s]
  {
  }

  /** `find` looks past a prefix that lacks the character. */
  lemma {:induction false} FindAfter(a: seq<char>, b: seq<char>, c: char)
    requires Find(a, c).None? && |b| > 0 && b[0] == c
    ensures Find(a + b, c) == Some(|a|)
  {
    if |a| > 0 {
      assert (a + b)[1..] == a[1..] + b;
      FindAfter(a[1..], b, c);
    }
  }

  /** trimmed(str): one trailing newline removed. */
  function Trimmed(s: seq<char>): (r: seq<char>)
    ensures r == s || (s == r + ['\n'])
    ensures |s| > 0 && s[|s| - 1] == '\n' ==> r == s[..|s| - 1]
  {
    if |s| > 0 && s[|s| - 1] == '\n' then s[..|s| - 1] else s
  }
}
