/**
 * The argument rules the transfer depends on: the number-with-unit parser
 * used for --skip, --seek, --bs and --count, the bound on --threads, and
 * the zero-count and default-block-size rules applied after scanning.
 */
module Args {
  import opened PddTypes

  predicate IsDigit(c: char) { '0' <= c <= '9' }

  predicate IsUnit(c: char) { c == 'K' || c == 'M' || c == 'G' }

  predicate AllDigits(t: string) { forall j :: 0 <= j < |t| ==> IsDigit(t[j]) }

  /** The extended regular expression `[[:digit:]]+([KMG])?`, as a predicate on the matched text. */
  predicate MatchesPattern(t: string) {
    && |t| >= 1
    && IsDigit(t[0])
    && (forall j :: 0 <= j < |t| - 1 ==> IsDigit(t[j]))
    && (IsDigit(t[|t| - 1]) || IsUnit(t[|t| - 1]))
  }

  /** Index of the first digit of `s` at or after `i`, or `|s|` when there is none. */
  function FirstDigit(s: string, i: nat): (k: nat)
    requires i <= |s|
    ensures i <= k <= |s|
    ensures forall j :: i <= j < k ==> !IsDigit(s[j])
    ensures k < |s| ==> IsDigit(s[k])
    decreases |s| - i
  {
    if i == |s| || IsDigit(s[i]) then i else FirstDigit(s, i + 1)
  }

  /** End of the run of digits of `s` that starts at `i`. */
  function DigitRunEnd(s: string, i: nat): (k: nat)
    requires i <= |s|
    ensures i <= k <= |s|
    ensures forall j :: i <= j < k ==> IsDigit(s[j])
    ensures k < |s| ==> !IsDigit(s[k])
    decreases |s| - i
  {
    if i < |s| && IsDigit(s[i]) then DigitRunEnd(s, i + 1) else i
  }

  /** Where regexec finds the pattern: `s[start..end]`, or nowhere. */
  datatype Span = NoDigits | Found(start: nat, end: nat)

  /**
   * POSIX leftmost-longest match of `[[:digit:]]+([KMG])?`: the first digit,
   * the whole run of digits after it, and one unit letter if one follows.
   */
  function FirstMatch(s: string): (m: Span)
    ensures m.Found? ==> m.start < m.end <= |s|
  {
    var st := FirstDigit(s, 0);
    if st == |s| then NoDigits
    else
      var e := DigitRunEnd(s, st);
      if e < |s| && IsUnit(s[e]) then Found(st, e + 1) else Found(st, e)
  }

  /** FirstMatch finds a match iff there is one, and the one it finds is leftmost and longest. */
  lemma FirstMatchIsLeftmostLongest(s: string)
    ensures FirstMatch(s).NoDigits? <==> forall j :: 0 <= j < |s| ==> !IsDigit(s[j])
    ensures FirstMatch(s).NoDigits? ==> forall i, j :: 0 <= i < j <= |s| ==> !MatchesPattern(s[i..j])
    ensures FirstMatch(s).Found? ==> MatchesPattern(s[FirstMatch(s).start..FirstMatch(s).end])
    ensures FirstMatch(s).Found? ==>
      forall i, j :: 0 <= i < FirstMatch(s).start && i < j <= |s| ==> !MatchesPattern(s[i..j])
    ensures FirstMatch(s).Found? ==>
      forall j :: FirstMatch(s).end < j <= |s| ==> !MatchesPattern(s[FirstMatch(s).start..j])
  {
    var st := FirstDigit(s, 0);
    forall i, j | 0 <= i < st && i < j <= |s| ensures !MatchesPattern(s[i..j]) {
      assert s[i..j][0] == s[i];
    }
    if st < |s| {
      var m := FirstMatch(s);
      var e := DigitRunEnd(s, st);
      var t := s[m.start..m.end];
      assert forall j :: 0 <= j < |t| - 1 ==> t[j] == s[st + j];
      assert t[|t| - 1] == s[m.end - 1];
      forall j | m.end < j <= |s| ensures !MatchesPattern(s[st..j]) {
        var u := s[st..j];
        assert u[e - st] == s[e];
        if m.end == e + 1 {
          assert e - st < |u| - 1;
        } else if j == e + 1 {
          assert u[|u| - 1] == s[e];
        } else {
          assert e - st < |u| - 1;
        }
      }
    }
  }

  function DigitValue(c: char): (d: nat)
    requires IsDigit(c)
    ensures d < 10
  {
    c as int - '0' as int
  }

  /** The number a run of decimal digits denotes (what strtoull computes in base 10). */
  function DecimalValue(ds: string): nat
    requires AllDigits(ds)
  {
    if ds == [] then 0 else DecimalValue(ds[..|ds| - 1]) * 10 + DigitValue(ds[|ds| - 1])
  }

  function DigitChar(d: nat): (c: char)
    requires d < 10
    ensures IsDigit(c) && DigitValue(c) == d
  {
    ('0' as int + d) as char
  }

  /** The decimal spelling of `n`, without leading zeros. */
  function Decimal(n: nat): (s: string)
    ensures |s| >= 1 && AllDigits(s)
  {
    if n < 10 then [DigitChar(n)] else Decimal(n / 10) + [DigitChar(n % 10)]
  }

  lemma {:induction false} DecimalRoundTrip(n: nat)
    ensures DecimalValue(Decimal(n)) == n
  {
    if n >= 10 {
      DecimalRoundTrip(n / 10);
      var s := Decimal(n);
      assert s[..|s| - 1] == Decimal(n / 10);
    }
  }

  function Pow10(k: nat): nat { if k == 0 then 1 else 10 * Pow10(k - 1) }

  lemma {:induction false} DecimalLength(n: nat, k: nat)
    requires 1 <= k && n < Pow10(k)
    ensures |Decimal(n)| <= k
  {
    if n >= 10 {
      assert k != 1;
      DecimalLength(n / 10, k - 1);
    }
  }

  /** The value of the `switch (unit)` in parse_int_with_unit; the default case exits. */
  function UnitMultiplier(c: char): (r: Result<nat>)
    ensures r.Ok? <==> IsUnit(c)
    ensures r.Err? ==> r.error == UnknownUnit
    ensures c == 'K' ==> r == Ok(ONE_KB)
    ensures c == 'M' ==> r == Ok(ONE_MB)
    ensures c == 'G' ==> r == Ok(ONE_GB)
  {
    if c == 'K' then Ok(1024)
    else if c == 'M' then Ok(1024 * 1024)
    else if c == 'G' then Ok(1024 * 1024 * 1024)
    else Err(UnknownUnit)
  }

  /**
   * parse_int_with_unit: the first match of `[[:digit:]]+([KMG])?`; the matched
   * text must be shorter than LEN_SM_BUF; the last matched character decides
   * the multiplier; strtoull must not overflow. The product is unbounded here.
   */
  function ParseIntWithUnit(input: string): (r: Result<nat>)
    ensures r.Ok? ==> r.value <= ONE_GB * ULLONG_MAX
  {
    match FirstMatch(input)
    case NoDigits => Err(NoMatch)
    case Found(start, end) =>
      if end - start >= LEN_SM_BUF then Err(TooLong)
      else
        var mult := MatchMultiplier(input[end - 1]);
        if mult.Err? then mult
        else
          var n := Digits(input, start);
          if n > ULLONG_MAX then Err(ValueOutOfRange) else Ok(mult.value * n)
  }

  /**
   * The multiplier the last matched character stands for: 1 after a digit,
   * else its unit's. Only a digit or a unit letter has one, a digit is the
   * only character worth 1, and none is worth more than a gigabyte.
   */
  function MatchMultiplier(c: char): (r: Result<nat>)
    ensures r.Ok? <==> IsDigit(c) || IsUnit(c)
    ensures r.Ok? ==> (r.value == 1 <==> IsDigit(c)) && 1 <= r.value <= ONE_GB
    ensures IsDigit(c) ==> r == Ok(1)
    ensures !IsDigit(c) ==> r == UnitMultiplier(c)
  {
    if IsDigit(c) then Ok(1) else UnitMultiplier(c)
  }

  /** The unit letters the parser knows, with the empty suffix for plain bytes. */
  datatype Unit = NoUnit | Kilo | Mega | Giga

  function Suffix(u: Unit): string {
    match u
    case NoUnit => ""
    case Kilo => "K"
    case Mega => "M"
    case Giga => "G"
  }

  /** The multiplier of a unit: the switch's value for its letter, 1 for plain bytes. */
  function Scale(u: Unit): nat {
    if u == NoUnit then 1 else UnitMultiplier(Suffix(u)[0]).value
  }

  /** The value of the digit run of `s` that starts at `i`: what strtoull reads from the copied match. */
  function Digits(s: string, i: nat): nat
    requires i <= |s|
  {
    DecimalValue(s[i..DigitRunEnd(s, i)])
  }

  lemma FirstDigitIs(s: string, k: nat)
    requires k < |s| && IsDigit(s[k])
    requires forall j :: 0 <= j < k ==> !IsDigit(s[j])
    ensures FirstDigit(s, 0) == k
  {
  }

  lemma DigitRunEndIs(s: string, i: nat, e: nat)
    requires i <= e <= |s|
    requires forall j :: i <= j < e ==> IsDigit(s[j])
    requires e < |s| ==> !IsDigit(s[e])
    ensures DigitRunEnd(s, i) == e
  {
  }

  lemma DecimalFitsBuffer(n: nat)
    requires n <= ULLONG_MAX
    ensures |Decimal(n)| <= 20
  {
    assert Pow10(20) == 100000000000000000000 by {
      assert Pow10(4) == 10000;
      assert Pow10(8) == 100000000;
      assert Pow10(12) == 1000000000000;
      assert Pow10(16) == 10000000000000000;
    }
    DecimalLength(n, 20);
  }

  /** The parse of text whose first digit run is `s[st..e]`, followed by the unit `u`. */
  lemma ParseAt(s: string, st: nat, e: nat, u: Unit)
    requires st < e <= |s| && e - st + |Suffix(u)| < LEN_SM_BUF
    requires forall j :: 0 <= j < st ==> !IsDigit(s[j])
    requires forall j :: st <= j < e ==> IsDigit(s[j])
    requires e < |s| ==> !IsDigit(s[e])
    requires u != NoUnit ==> e < |s| && s[e] == Suffix(u)[0]
    requires u == NoUnit && e < |s| ==> !IsUnit(s[e])
    requires DecimalValue(s[st..e]) <= ULLONG_MAX
    ensures ParseIntWithUnit(s) == Ok(Scale(u) * DecimalValue(s[st..e]))
  {
    FirstMatchAt(s, st, e, u);
    ParseFound(s, st, e + |Suffix(u)|, Scale(u), DecimalValue(s[st..e]));
  }

  /** Where the match lies in text whose first digit run is `s[st..e]`, followed by the unit `u`. */
  lemma FirstMatchAt(s: string, st: nat, e: nat, u: Unit)
    requires st < e <= |s|
    requires forall j :: 0 <= j < st ==> !IsDigit(s[j])
    requires forall j :: st <= j < e ==> IsDigit(s[j])
    requires e < |s| ==> !IsDigit(s[e])
    requires u != NoUnit ==> e < |s| && s[e] == Suffix(u)[0]
    requires u == NoUnit && e < |s| ==> !IsUnit(s[e])
    ensures FirstMatch(s) == Found(st, e + |Suffix(u)|) && DigitRunEnd(s, st) == e
    ensures MatchMultiplier(s[e + |Suffix(u)| - 1]) == Ok(Scale(u))
  {
    FirstDigitIs(s, st);
    DigitRunEndIs(s, st, e);
  }

  /**
   * Round trip: a number spelt in decimal, followed by an optional unit letter
   * and embedded in text that neither adds digits before it nor extends the
   * match after it, parses back to the number times the unit.
   */
  lemma ParseDecimalWithUnit(prefix: string, n: nat, u: Unit, rest: string)
    requires forall j :: 0 <= j < |prefix| ==> !IsDigit(prefix[j])
    requires n <= ULLONG_MAX
    requires rest != [] ==> !IsDigit(rest[0]) && (u == NoUnit ==> !IsUnit(rest[0]))
    ensures ParseIntWithUnit(prefix + Decimal(n) + Suffix(u) + rest) == Ok(Scale(u) * n)
  {
    var d := Decimal(n);
    DecimalFitsBuffer(n);
    DecimalRoundTrip(n);
    SpelledParse(prefix, d, u, rest);
  }

  lemma SpelledParse(prefix: string, d: string, u: Unit, rest: string)
    requires forall j :: 0 <= j < |prefix| ==> !IsDigit(prefix[j])
    requires 1 <= |d| && |d| + |Suffix(u)| < LEN_SM_BUF && AllDigits(d) && DecimalValue(d) <= ULLONG_MAX
    requires rest != [] ==> !IsDigit(rest[0]) && (u == NoUnit ==> !IsUnit(rest[0]))
    ensures ParseIntWithUnit(prefix + d + Suffix(u) + rest) == Ok(Scale(u) * DecimalValue(d))
  {
    SpelledMatch(prefix, d, u, rest);
    ParseFound(prefix + d + Suffix(u) + rest, |prefix|, |prefix| + |d| + |Suffix(u)|, Scale(u), DecimalValue(d));
  }

  /** The parse once the match, the multiplier of its last character and the value of its digits are known. */
  lemma ParseFound(s: string, st: nat, end: nat, m: nat, v: nat)
    requires st < end <= |s| && end - st < LEN_SM_BUF
    requires FirstMatch(s) == Found(st, end)
    requires MatchMultiplier(s[end - 1]) == Ok(m)
    requires Digits(s, st) == v && v <= ULLONG_MAX
    ensures ParseIntWithUnit(s) == Ok(m * v)
  {
  }

  /** Where the match lies in `prefix + d + Suffix(u) + rest`, what its last character stands for, and the value of its digits. */
  lemma SpelledMatch(prefix: string, d: string, u: Unit, rest: string)
    requires forall j :: 0 <= j < |prefix| ==> !IsDigit(prefix[j])
    requires 1 <= |d| && AllDigits(d)
    requires rest != [] ==> !IsDigit(rest[0]) && (u == NoUnit ==> !IsUnit(rest[0]))
    ensures var s, st, end := prefix + d + Suffix(u) + rest, |prefix|, |prefix| + |d| + |Suffix(u)|;
      && st < end <= |s|
      && FirstMatch(s) == Found(st, end)
      && MatchMultiplier(s[end - 1]) == Ok(Scale(u))
      && Digits(s, st) == DecimalValue(d)
  {
    var s, st, e := prefix + d + Suffix(u) + rest, |prefix|, |prefix| + |d|;
    SpelledDigits(prefix, d, u, rest);
    FirstMatchAt(s, st, e, u);
    assert s[st..DigitRunEnd(s, st)] == d;
  }

  /** The characters of `prefix + d + Suffix(u) + rest` around its first digit run, which is `d`. */
  lemma SpelledDigits(prefix: string, d: string, u: Unit, rest: string)
    requires forall j :: 0 <= j < |prefix| ==> !IsDigit(prefix[j])
    requires 1 <= |d| && AllDigits(d)
    requires rest != [] ==> !IsDigit(rest[0]) && (u == NoUnit ==> !IsUnit(rest[0]))
    ensures var s, st, e := prefix + d + Suffix(u) + rest, |prefix|, |prefix| + |d|;
      && st < e <= |s|
      && (forall j :: 0 <= j < st ==> !IsDigit(s[j]))
      && (forall j :: st <= j < e ==> IsDigit(s[j]))
      && (e < |s| ==> !IsDigit(s[e]))
      && (u != NoUnit ==> e < |s| && s[e] == Suffix(u)[0])
      && (u == NoUnit && e < |s| ==> !IsUnit(s[e]))
      && s[st..e] == d
  {
    var tail := Suffix(u) + rest;
    var s, e := prefix + d + tail, |prefix| + |d|;
    assert s == prefix + d + Suffix(u) + rest;
    SpelledLayout(prefix, d, tail);
    if u == NoUnit {
      assert e < |s| ==> tail[0] == rest[0];
    } else {
      assert tail[0] == Suffix(u)[0];
    }
  }

  /** `k` leading zeros. */
  function Zeros(k: nat): (z: string)
    ensures |z| == k && AllDigits(z)
  {
    seq(k, _ => '0')
  }

  lemma {:induction false} ZerosValue(k: nat)
    ensures DecimalValue(Zeros(k)) == 0
  {
    if k > 0 {
      assert Zeros(k)[..k - 1] == Zeros(k - 1);
      ZerosValue(k - 1);
    }
  }

  /** Leading zeros do not change the value strtoull reads. */
  lemma {:induction false} LeadingZerosValue(k: nat, ds: string)
    requires AllDigits(ds)
    ensures AllDigits(Zeros(k) + ds) && DecimalValue(Zeros(k) + ds) == DecimalValue(ds)
    decreases |ds|
  {
    var z := Zeros(k) + ds;
    if ds == [] {
      assert z == Zeros(k);
      ZerosValue(k);
    } else {
      assert z[..|z| - 1] == Zeros(k) + ds[..|ds| - 1];
      LeadingZerosValue(k, ds[..|ds| - 1]);
    }
  }

  /**
   * Zero-padded numbers: as long as the whole match (zeros, digits and unit
   * letter) is shorter than LEN_SM_BUF, the padding is read as part of the
   * number and changes nothing.
   */
  lemma ParsePadded(prefix: string, k: nat, n: nat, u: Unit, rest: string)
    requires forall j :: 0 <= j < |prefix| ==> !IsDigit(prefix[j])
    requires n <= ULLONG_MAX && k + |Decimal(n)| + |Suffix(u)| < LEN_SM_BUF
    requires rest != [] ==> !IsDigit(rest[0]) && (u == NoUnit ==> !IsUnit(rest[0]))
    ensures ParseIntWithUnit(prefix + Zeros(k) + Decimal(n) + Suffix(u) + rest) == Ok(Scale(u) * n)
  {
    var d := Zeros(k) + Decimal(n);
    DecimalRoundTrip(n);
    LeadingZerosValue(k, Decimal(n));
    assert prefix + Zeros(k) + Decimal(n) == prefix + d;
    SpelledParse(prefix, d, u, rest);
  }

  /** The same text padded to LEN_SM_BUF characters or more is refused as too long, whatever its value. */
  lemma ParsePaddedTooLong(prefix: string, k: nat, n: nat, u: Unit, rest: string)
    requires forall j :: 0 <= j < |prefix| ==> !IsDigit(prefix[j])
    requires k + |Decimal(n)| + |Suffix(u)| >= LEN_SM_BUF
    requires rest != [] ==> !IsDigit(rest[0]) && (u == NoUnit ==> !IsUnit(rest[0]))
    ensures ParseIntWithUnit(prefix + Zeros(k) + Decimal(n) + Suffix(u) + rest) == Err(TooLong)
  {
    var d := Zeros(k) + Decimal(n);
    assert prefix + Zeros(k) + Decimal(n) == prefix + d;
    SpelledMatch(prefix, d, u, rest);
  }

  lemma SpelledLayout(prefix: string, d: string, tail: string)
    ensures var s := prefix + d + tail;
      && s[|prefix|..|prefix| + |d|] == d
      && (forall j :: 0 <= j < |prefix| ==> s[j] == prefix[j])
      && (forall j :: |prefix| <= j < |prefix| + |d| ==> s[j] == d[j - |prefix|])
      && (|prefix| + |d| < |s| ==> s[|prefix| + |d|] == tail[0])
  {
  }

  /**
   * Exactly when the parser succeeds, and which error it reports otherwise:
   * no digit at all; a match of LEN_SM_BUF characters or more, which does not
   * fit the buffer it is copied into; or digits that strtoull cannot hold.
   */
  lemma ParseOutcome(input: string)
    ensures var m := FirstMatch(input);
      ParseIntWithUnit(input).Ok? <==>
        m.Found? && m.end - m.start < LEN_SM_BUF && Digits(input, m.start) <= ULLONG_MAX
    ensures var m := FirstMatch(input);
      ParseIntWithUnit(input) == Err(TooLong) <==> m.Found? && m.end - m.start >= LEN_SM_BUF
    ensures var m := FirstMatch(input);
      ParseIntWithUnit(input) == Err(ValueOutOfRange) <==>
        m.Found? && m.end - m.start < LEN_SM_BUF && Digits(input, m.start) > ULLONG_MAX
    ensures ParseIntWithUnit(input) == Err(NoMatch) <==> FirstMatch(input).NoDigits?
  {
    ParseNeverUnknownUnit(input);
  }

  /** Input without any digit is the only input regexec rejects. */
  lemma ParseNoMatchIffNoDigit(input: string)
    ensures ParseIntWithUnit(input) == Err(NoMatch) <==> forall j :: 0 <= j < |input| ==> !IsDigit(input[j])
  {
    FirstMatchIsLeftmostLongest(input);
  }

  /** The `default:` branch of the unit switch cannot be reached: the match ends in a digit or a unit letter. */
  lemma ParseNeverUnknownUnit(input: string)
    ensures ParseIntWithUnit(input) != Err(UnknownUnit)
  {
    match FirstMatch(input)
    case NoDigits =>
    case Found(start, end) =>
      FirstMatchIsLeftmostLongest(input);
      var t := input[start..end];
      assert t[|t| - 1] == input[end - 1];
  }

  /**
   * Converse of the round trip: a successful parse comes from a digit run
   * starting at the first digit of the input, read to its end, followed by
   * the unit letter the match took (if any), and the value is that number
   * times the unit.
   */
  lemma ParseOkShape(input: string) returns (start: nat, digitsEnd: nat, u: Unit)
    requires ParseIntWithUnit(input).Ok?
    ensures start < digitsEnd <= |input|
    ensures digitsEnd - start + |Suffix(u)| < LEN_SM_BUF
    ensures forall j :: 0 <= j < start ==> !IsDigit(input[j])
    ensures AllDigits(input[start..digitsEnd]) && DecimalValue(input[start..digitsEnd]) <= ULLONG_MAX
    ensures digitsEnd < |input| ==> !IsDigit(input[digitsEnd])
    ensures digitsEnd + |Suffix(u)| <= |input| && input[digitsEnd..digitsEnd + |Suffix(u)|] == Suffix(u)
    ensures u == NoUnit && digitsEnd < |input| ==> !IsUnit(input[digitsEnd])
    ensures ParseIntWithUnit(input).value == Scale(u) * DecimalValue(input[start..digitsEnd])
  {
    ParseOkParts(input);
    var m := FirstMatch(input);
    start := m.start;
    digitsEnd := DigitRunEnd(input, start);
    if digitsEnd < |input| && IsUnit(input[digitsEnd]) {
      u := if input[digitsEnd] == 'K' then Kilo else if input[digitsEnd] == 'M' then Mega else Giga;
      assert m.end == digitsEnd + 1;
      assert input[digitsEnd..digitsEnd + 1] == [input[digitsEnd]];
    } else {
      u := NoUnit;
      assert m.end == digitsEnd;
      assert IsDigit(input[digitsEnd - 1]);
    }
  }

  /** What a successful parse took from the input: a short enough match, its multiplier and its value. */
  lemma ParseOkParts(input: string)
    requires ParseIntWithUnit(input).Ok?
    ensures FirstMatch(input).Found?
    ensures var m := FirstMatch(input);
      && m.end - m.start < LEN_SM_BUF
      && MatchMultiplier(input[m.end - 1]).Ok?
      && Digits(input, m.start) <= ULLONG_MAX
      && ParseIntWithUnit(input).value == MatchMultiplier(input[m.end - 1]).value * Digits(input, m.start)
  {
  }

  /**
   * The `--threads` rule of scan_args as written: strtoull's ERANGE is fatal,
   * a value up to 255 is stored unchanged, anything larger is fatal.
   * `value` is the number the argument spells.
   */
  function ScanThreads(value: nat): (r: Result<nat>)
    ensures r.Ok? <==> value <= MAX_THREADS
    ensures r.Ok? ==> r.value == value
    ensures value > ULLONG_MAX ==> r == Err(ThreadsOutOfRange)
    ensures MAX_THREADS < value <= ULLONG_MAX ==> r == Err(ThreadsTooBig)
  {
    if value > ULLONG_MAX then Err(ThreadsOutOfRange)
    else if value <= 255 then Ok(value)
    else Err(ThreadsTooBig)
  }

  /** The `--threads` rule with the missing lower bound: zero workers is refused too. */
  function ScanThreadsChecked(value: nat): (r: Result<nat>)
    ensures r.Ok? <==> 1 <= value <= MAX_THREADS
    ensures r.Ok? ==> r.value == value
    ensures value == 0 ==> r == Err(ThreadsZero)
  {
    if value == 0 then Err(ThreadsZero) else ScanThreads(value)
  }

  /** verify_global_var's rules on the count and block size (the path checks are not modelled). */
  function VerifyGlobals(cfg: Config): (r: Result<Config>)
    ensures r.Err? <==> cfg.count == 0
    ensures r.Err? ==> r.error == CountZero
    ensures r.Ok? ==> r.value.block > 0 && r.value.count == cfg.count
    ensures r.Ok? ==> r.value.block == (if cfg.block == 0 then DEFAULT_BS else cfg.block)
    ensures r.Ok? ==> r.value.skip == cfg.skip && r.value.seek == cfg.seek && r.value.threads == cfg.threads
  {
    if cfg.count == 0 then Err(CountZero)
    else if cfg.block == 0 then Ok(cfg.(block := DEFAULT_BS))
    else Ok(cfg)
  }

  /**
   * The checks between scanning and planning, in the order the program makes
   * them: first the thread count (corrected rule), then verify_global_var.
   * A configuration that passes is one the planner and the workers accept.
   */
  function Prepare(raw: Config): (r: Result<Config>)
    ensures r.Ok? <==> 1 <= raw.threads <= MAX_THREADS && raw.count > 0
    ensures r.Ok? ==> 1 <= r.value.threads <= MAX_THREADS && r.value.block > 0 && r.value.count > 0
    ensures r.Ok? ==> r.value == raw.(block := if raw.block == 0 then DEFAULT_BS else raw.block)
  {
    var t := ScanThreadsChecked(raw.threads);
    if t.Err? then Err(t.error) else VerifyGlobals(raw)
  }
}
