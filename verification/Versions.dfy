/** API versions: printing, parsing and the registry's choice of the latest one. */
module Versions {
  import opened Counting
  import opened Wrappers

  datatype Version = Version(major: int, minor: int, patch: int)

  datatype ParseError = InvalidFormat | FailedToParse

  datatype RegistryError = ServiceNotFound

  const MIN_INT64: int := -0x8000_0000_0000_0000
  const MAX_INT64: int := 0x7FFF_FFFF_FFFF_FFFF

  predicate IsInt64(n: int) {
    MIN_INT64 <= n <= MAX_INT64
  }

  predicate Representable(v: Version) {
    IsInt64(v.major) && IsInt64(v.minor) && IsInt64(v.patch)
  }

  // ---- Printing ----------------------------------------------------------------------

  function DigitChar(d: nat): char
    requires d < 10
  {
    '0' + d as char
  }

  predicate IsDigit(c: char) {
    '0' <= c <= '9'
  }

  function Digits(n: nat): (s: string)
    ensures |s| >= 1 && forall i | 0 <= i < |s| :: IsDigit(s[i])
  {
    if n < 10 then [DigitChar(n)] else Digits(n / 10) + [DigitChar(n % 10)]
  }

  function Decimal(n: int): string {
    if n < 0 then "-" + Digits(-n) else Digits(n)
  }

  function Print(v: Version): string {
    "v" + Decimal(v.major) + "." + Decimal(v.minor) + "." + Decimal(v.patch)
  }

  // ---- Parsing -----------------------------------------------------------------------

  /** The space characters of Go's fmt scanner. */
  predicate IsSpace(c: char) {
    var n := c as int;
    || 0x9 <= n <= 0xD || n == 0x20 || n == 0x85 || n == 0xA0 || n == 0x1680
    || 0x2000 <= n <= 0x200A || n == 0x2028 || n == 0x2029 || n == 0x202F || n == 0x205F || n == 0x3000
  }

  /** Leading spaces are skipped; a newline among them is an error. */
  function SkipSpace(s: string): Result<string, ParseError> {
    if s == "" then Ok(s)
    else if s[0] == '\n' then Err(FailedToParse)
    else if IsSpace(s[0]) then SkipSpace(s[1..])
    else Ok(s)
  }

  /** The length of the leading run of digits. */
  function DigitRun(s: string): (n: nat)
    ensures n <= |s| && forall i | 0 <= i < n :: IsDigit(s[i])
  {
    if s == "" || !IsDigit(s[0]) then 0 else 1 + DigitRun(s[1..])
  }

  function ValueOf(s: string): nat
    requires forall i | 0 <= i < |s| :: IsDigit(s[i])
  {
    if s == "" then 0
    else
      assert IsDigit(s[|s| - 1]);
      10 * ValueOf(s[..|s| - 1]) + (s[|s| - 1] as int - '0' as int)
  }

  function Signed(negative: bool, magnitude: nat): int {
    if negative then -(magnitude as int) else magnitude as int
  }

  function ScanDigits(negative: bool, body: string): Result<(int, string), ParseError> {
    var n := DigitRun(body);
    if n == 0 then Err(FailedToParse)
    else
      var value := Signed(negative, ValueOf(body[..n]));
      if IsInt64(value) then Ok((value, body[n..])) else Err(FailedToParse)
  }

  function ScanSigned(s: string): Result<(int, string), ParseError> {
    if s == "" then Err(FailedToParse)
    else if s[0] == '+' || s[0] == '-' then ScanDigits(s[0] == '-', s[1..])
    else ScanDigits(false, s)
  }

  /** The verb %d: spaces, an optional sign, digits, within int64. Yields the number and the rest. */
  function ScanInt(s: string): Result<(int, string), ParseError> {
    var skipped := SkipSpace(s);
    if skipped.Err? then Err(FailedToParse) else ScanSigned(skipped.value)
  }

  /** The format %d followed by a literal dot. */
  function ScanIntDot(s: string): Result<(int, string), ParseError> {
    var r := ScanInt(s);
    if r.Err? || r.value.1 == "" || r.value.1[0] != '.' then Err(FailedToParse)
    else Ok((r.value.0, r.value.1[1..]))
  }

  function ScanThree(s: string): Result<Version, ParseError> {
    var major := ScanIntDot(s);
    if major.Err? then Err(FailedToParse) else
    var minor := ScanIntDot(major.value.1);
    if minor.Err? then Err(FailedToParse) else
    var patch := ScanInt(minor.value.1);
    if patch.Err? then Err(FailedToParse) else Ok(Version(major.value.0, minor.value.0, patch.value.0))
  }

  /** One leading "v" is dropped. */
  function Trimmed(s: string): string {
    if s != "" && s[0] == 'v' then s[1..] else s
  }

  /** Three parts between dots, of which the scan reads as much as it needs and no more. */
  function Parse(s: string): Result<Version, ParseError> {
    if Count(Trimmed(s), '.') + 1 != 3 then Err(InvalidFormat) else ScanThree(Trimmed(s))
  }

  // ---- What the parser accepts -------------------------------------------------------

  predicate NoLeadingDigit(s: string) {
    s == "" || !IsDigit(s[0])
  }

  /** A number as the scanner takes it: spaces, perhaps a sign, and digits, leading zeros included. */
  datatype Numeral = Numeral(spaces: string, sign: string, digits: string) {
    predicate Valid() {
      && (forall i | 0 <= i < |spaces| :: IsSpace(spaces[i]) && spaces[i] != '\n')
      && (sign == "" || sign == "+" || sign == "-")
      && digits != ""
      && (forall i | 0 <= i < |digits| :: IsDigit(digits[i]))
      && IsInt64(Value())
    }

    function Text(): string {
      spaces + (sign + digits)
    }

    function Value(): int
      requires forall i | 0 <= i < |digits| :: IsDigit(digits[i])
    {
      Signed(sign == "-", ValueOf(digits))
    }
  }

  /** Three numerals between two dots, then a tail that neither goes on with a digit nor has a dot. */
  ghost predicate Reads(s: string, v: Version) {
    exists a: Numeral, b: Numeral, c: Numeral, tail: string ::
      ReadsAs(s, v, a, b, c, tail)
  }

  predicate ReadsAs(s: string, v: Version, a: Numeral, b: Numeral, c: Numeral, tail: string) {
    && a.Valid() && b.Valid() && c.Valid() && NoLeadingDigit(tail) && '.' !in tail
    && s == a.Text() + ("." + (b.Text() + ("." + (c.Text() + tail))))
    && v == Version(a.Value(), b.Value(), c.Value())
  }

  lemma {:induction false} RunOfDigits(ds: string, rest: string)
    requires (forall i | 0 <= i < |ds| :: IsDigit(ds[i])) && NoLeadingDigit(rest)
    ensures DigitRun(ds + rest) == |ds|
  {
    if ds == "" {
      assert ds + rest == rest;
    } else {
      assert (ds + rest)[0] == ds[0] && (ds + rest)[1..] == ds[1..] + rest;
      RunOfDigits(ds[1..], rest);
    }
  }

  lemma {:induction false} RunEnds(s: string)
    ensures NoLeadingDigit(s[DigitRun(s)..])
  {
    if s != "" && IsDigit(s[0]) {
      RunEnds(s[1..]);
      assert s[DigitRun(s)..] == s[1..][DigitRun(s[1..])..];
    }
  }

  lemma {:induction false} SkipsSpaces(spaces: string, rest: string)
    requires forall i | 0 <= i < |spaces| :: IsSpace(spaces[i]) && spaces[i] != '\n'
    requires rest == "" || !IsSpace(rest[0])
    ensures SkipSpace(spaces + rest) == Ok(rest)
  {
    if spaces == "" {
      assert spaces + rest == rest;
    } else {
      assert (spaces + rest)[0] == spaces[0] && (spaces + rest)[1..] == spaces[1..] + rest;
      SkipsSpaces(spaces[1..], rest);
    }
  }

  /** What SkipSpace took off. */
  lemma {:induction false} SpacesOf(s: string) returns (spaces: string)
    requires SkipSpace(s).Ok?
    ensures forall i | 0 <= i < |spaces| :: IsSpace(spaces[i]) && spaces[i] != '\n'
    ensures s == spaces + SkipSpace(s).value
  {
    if s == "" || !IsSpace(s[0]) {
      spaces := "";
    } else {
      var more := SpacesOf(s[1..]);
      spaces := [s[0]] + more;
    }
  }

  lemma TextThen(a: Numeral, rest: string)
    ensures a.Text() + rest == a.spaces + (a.sign + (a.digits + rest))
  {
  }

  /** A numeral is scanned to its value, and what follows it is left. */
  lemma ScanNumeral(a: Numeral, rest: string)
    requires a.Valid() && NoLeadingDigit(rest)
    ensures ScanInt(a.Text() + rest) == Ok((a.Value(), rest))
  {
    var body := a.digits + rest;
    TextThen(a, rest);
    assert IsDigit(a.digits[0]);
    SkipsSpaces(a.spaces, a.sign + body);
    assert a.sign == "" ==> a.sign + body == body;
    assert a.sign != "" ==> (a.sign + body)[1..] == body;
    RunOfDigits(a.digits, rest);
    assert body[..|a.digits|] == a.digits && body[|a.digits|..] == rest;
  }

  lemma TakenDigits(negative: bool, body: string) returns (digits: string)
    requires ScanDigits(negative, body).Ok?
    ensures digits != "" && forall i | 0 <= i < |digits| :: IsDigit(digits[i])
    ensures ScanDigits(negative, body).value.0 == Signed(negative, ValueOf(digits))
    ensures var rest := ScanDigits(negative, body).value.1; body == digits + rest && NoLeadingDigit(rest)
    ensures IsInt64(ScanDigits(negative, body).value.0)
  {
    digits := body[..DigitRun(body)];
    RunEnds(body);
  }

  lemma SignedNumeralOf(s: string) returns (a: Numeral)
    requires ScanSigned(s).Ok?
    ensures a.Valid() && a.spaces == "" && ScanSigned(s).value.0 == a.Value()
    ensures s == a.sign + (a.digits + ScanSigned(s).value.1) && NoLeadingDigit(ScanSigned(s).value.1)
  {
    if s[0] == '+' || s[0] == '-' {
      var digits := TakenDigits(s[0] == '-', s[1..]);
      a := Numeral("", [s[0]], digits);
    } else {
      var digits := TakenDigits(false, s);
      a := Numeral("", "", digits);
    }
  }

  /** The numeral that a scan took. */
  lemma NumeralOf(s: string) returns (a: Numeral)
    requires ScanInt(s).Ok?
    ensures a.Valid() && s == a.Text() + ScanInt(s).value.1 && ScanInt(s).value.0 == a.Value()
    ensures NoLeadingDigit(ScanInt(s).value.1)
  {
    var spaces := SpacesOf(s);
    var signed := SignedNumeralOf(SkipSpace(s).value);
    a := signed.(spaces := spaces);
    TextThen(a, ScanInt(s).value.1);
  }

  lemma NumeralNoDots(a: Numeral)
    requires a.Valid()
    ensures '.' !in a.Text()
  {
  }

  lemma OneDot(a: string, b: string)
    requires '.' !in a
    ensures Count(a + ("." + b), '.') == 1 + Count(b, '.')
  {
    CountMember(a, '.');
    assert Count(".", '.') == 1 by { assert "."[..0] == ""; }
    CountAppend(a, "." + b, '.');
    CountAppend(".", b, '.');
  }

  lemma DotsOf(a: Numeral, b: Numeral, c: Numeral, tail: string)
    requires a.Valid() && b.Valid() && c.Valid()
    ensures Count(a.Text() + ("." + (b.Text() + ("." + (c.Text() + tail)))), '.') == 2 + Count(tail, '.')
  {
    NumeralNoDots(a);
    NumeralNoDots(b);
    NumeralNoDots(c);
    CountMember(c.Text(), '.');
    CountAppend(c.Text(), tail, '.');
    OneDot(b.Text(), c.Text() + tail);
    OneDot(a.Text(), b.Text() + ("." + (c.Text() + tail)));
  }

  lemma ScanNumeralDot(a: Numeral, rest: string)
    requires a.Valid()
    ensures ScanIntDot(a.Text() + ("." + rest)) == Ok((a.Value(), rest))
  {
    var dotted := "." + rest;
    ScanNumeral(a, dotted);
    assert dotted[1..] == rest;
  }

  lemma ScanNumerals(a: Numeral, b: Numeral, c: Numeral, tail: string)
    requires a.Valid() && b.Valid() && c.Valid() && NoLeadingDigit(tail)
    ensures ScanThree(a.Text() + ("." + (b.Text() + ("." + (c.Text() + tail)))))
         == Ok(Version(a.Value(), b.Value(), c.Value()))
  {
    var z := c.Text() + tail;
    var y := b.Text() + ("." + z);
    ScanNumeralDot(a, y);
    ScanNumeralDot(b, z);
    ScanNumeral(c, tail);
  }

  lemma NumeralDotOf(s: string) returns (a: Numeral)
    requires ScanIntDot(s).Ok?
    ensures a.Valid() && s == a.Text() + ("." + ScanIntDot(s).value.1) && ScanIntDot(s).value.0 == a.Value()
  {
    a := NumeralOf(s);
    var rest := ScanInt(s).value.1;
    assert rest == "." + rest[1..];
  }

  lemma ScannedNumerals(s: string) returns (a: Numeral, b: Numeral, c: Numeral, tail: string)
    requires ScanThree(s).Ok?
    ensures a.Valid() && b.Valid() && c.Valid() && NoLeadingDigit(tail)
    ensures s == a.Text() + ("." + (b.Text() + ("." + (c.Text() + tail))))
    ensures ScanThree(s).value == Version(a.Value(), b.Value(), c.Value())
  {
    a := NumeralDotOf(s);
    var y := ScanIntDot(s).value.1;
    b := NumeralDotOf(y);
    var z := ScanIntDot(y).value.1;
    c := NumeralOf(z);
    tail := ScanInt(z).value.1;
  }

  /**
   What parses, and to what: exactly the strings that are, one leading "v" aside, three
   numerals between two dots and a tail without a dot. Spaces before a number, a plus sign and
   leading zeros are all accepted, and the tail is ignored.
   */
  lemma ParsesExactly(s: string, v: Version)
    ensures Parse(s) == Ok(v) <==> if s != "" && s[0] == 'v' then Reads(s[1..], v) else Reads(s, v)
  {
    var t := Trimmed(s);
    if Parse(s) == Ok(v) {
      var a, b, c, tail := ScannedNumerals(t);
      DotsOf(a, b, c, tail);
      CountMember(tail, '.');
      assert ReadsAs(t, v, a, b, c, tail);
    }
    if Reads(t, v) {
      var a, b, c, tail :| ReadsAs(t, v, a, b, c, tail);
      DotsOf(a, b, c, tail);
      CountMember(tail, '.');
      ScanNumerals(a, b, c, tail);
    }
  }

  // ---- Round trip --------------------------------------------------------------------

  lemma {:induction false} DigitsValue(n: nat)
    ensures ValueOf(Digits(n)) == n
  {
    if n < 10 {
      assert Digits(n)[..0] == "";
    } else {
      DigitsValue(n / 10);
      assert Digits(n)[..|Digits(n)| - 1] == Digits(n / 10);
    }
  }

  /** The numeral that is printed for a number. */
  function Printed(n: int): Numeral {
    Numeral("", if n < 0 then "-" else "", Digits(if n < 0 then -n else n))
  }

  lemma PlainNumeral(sign: string, digits: string, n: nat)
    requires (sign == "" || sign == "-") && digits != "" && forall i | 0 <= i < |digits| :: IsDigit(digits[i])
    requires ValueOf(digits) == n && IsInt64(Signed(sign == "-", n))
    ensures var a := Numeral("", sign, digits);
            && a.Valid() && a.Value() == Signed(sign == "-", n) && a.Text() == sign + digits
            && (sign == "" ==> a.Text() == digits)
  {
  }

  lemma PrintedIsDecimal(n: int)
    requires IsInt64(n)
    ensures Printed(n).Valid() && Printed(n).Text() == Decimal(n) && Printed(n).Value() == n
  {
    var magnitude: nat := if n < 0 then -n else n;
    DigitsValue(magnitude);
    PlainNumeral(if n < 0 then "-" else "", Digits(magnitude), magnitude);
  }

  lemma Regroup(a: string, b: string, c: string, tail: string)
    ensures Trimmed("v" + a + "." + b + "." + c + tail) == a + ("." + (b + ("." + (c + tail))))
  {
  }

  /** A printed version and a tail, the "v" off, are three numerals between two dots and the tail. */
  lemma PrintedText(v: Version, tail: string)
    requires Representable(v)
    ensures Trimmed(Print(v) + tail)
         == Printed(v.major).Text() + ("." + (Printed(v.minor).Text() + ("." + (Printed(v.patch).Text() + tail))))
  {
    PrintedIsDecimal(v.major);
    PrintedIsDecimal(v.minor);
    PrintedIsDecimal(v.patch);
    Regroup(Decimal(v.major), Decimal(v.minor), Decimal(v.patch), tail);
  }

  /**
   What follows a printed version is ignored unless it holds a dot: for every int64 version
   and every tail that does not start with a digit, parsing gives the version back if and
   only if the tail has no dot.
   */
  lemma ParsePrintedThenTail(v: Version, tail: string)
    requires Representable(v) && NoLeadingDigit(tail)
    ensures Parse(Print(v) + tail) == Ok(v) <==> '.' !in tail
    ensures '.' in tail ==> Parse(Print(v) + tail) == Err(InvalidFormat)
  {
    var a, b, c := Printed(v.major), Printed(v.minor), Printed(v.patch);
    PrintedIsDecimal(v.major);
    PrintedIsDecimal(v.minor);
    PrintedIsDecimal(v.patch);
    PrintedText(v, tail);
    DotsOf(a, b, c, tail);
    CountMember(tail, '.');
    ScanNumerals(a, b, c, tail);
  }

  /** What a version looks like: three decimal numbers, major first. */
  lemma PrintLooks()
    ensures Print(Version(10, 0, -27)) == "v10.0.-27" && Parse("v10.0.-27") == Ok(Version(10, 0, -27))
  {
    assert Digits(10) == Digits(1) + "0" && Digits(27) == Digits(2) + "7";
    assert Print(Version(10, 0, -27)) == "v10.0.-27";
    ParsePrint(Version(10, 0, -27));
  }

  /**
   Round trip: parsing a printed version returns it if and only if its three numbers fit 64 bits,
   negative ones included.
   */
  lemma ParsePrint(v: Version)
    ensures Parse(Print(v)) == Ok(v) <==>
            && -0x8000_0000_0000_0000 <= v.major <= 0x7FFF_FFFF_FFFF_FFFF
            && -0x8000_0000_0000_0000 <= v.minor <= 0x7FFF_FFFF_FFFF_FFFF
            && -0x8000_0000_0000_0000 <= v.patch <= 0x7FFF_FFFF_FFFF_FFFF
  {
    if Representable(v) {
      ParsePrintedThenTail(v, "");
      assert Print(v) + "" == Print(v);
    }
    ParsesExactly(Print(v), v);
  }

  lemma SmallNumerals()
    ensures Numeral(" ", "", "1").Valid() && Numeral(" ", "", "1").Value() == 1
    ensures Numeral("\t", "+", "02").Valid() && Numeral("\t", "+", "02").Value() == 2
    ensures Numeral("", "", "3").Valid() && Numeral("", "", "3").Value() == 3
  {
    assert "1"[..0] == "" && "3"[..0] == "";
    assert "02"[..1] == "0" && "0"[..0] == "";
  }

  lemma Spelled()
    ensures Numeral(" ", "", "1").Text() == " 1" && Numeral("", "", "3").Text() == "3"
    ensures Numeral("\t", "+", "02").Text() == "\t+02"
    ensures " 1" + ("." + ("\t+02" + ("." + ("3" + "-rc1")))) == " 1.\t+02.3-rc1"
  {
  }

  /** Spaces, a tab, a plus sign, a leading zero and a tail are all taken. */
  lemma ParseLooks()
    ensures Parse(" 1.\t+02.3-rc1") == Ok(Version(1, 2, 3))
  {
    var s, a, b, c := " 1.\t+02.3-rc1", Numeral(" ", "", "1"), Numeral("\t", "+", "02"), Numeral("", "", "3");
    SmallNumerals();
    Spelled();
    assert ReadsAs(s, Version(1, 2, 3), a, b, c, "-rc1");
    ParsesExactly(s, Version(1, 2, 3));
  }

  // ---- The latest version ------------------------------------------------------------

  const ZERO := Version(0, 0, 0)

  /** Precedence: major, then minor, then patch (Semantic Versioning 2.0.0, item 11). */
  predicate Above(a: Version, b: Version) {
    || a.major > b.major
    || (a.major == b.major && a.minor > b.minor)
    || (a.major == b.major && a.minor == b.minor && a.patch > b.patch)
  }

  type Service = int

  ghost predicate IsLatest(versions: map<Version, Service>, v: Version) {
    v in versions && forall w | w in versions && w != v :: Above(v, w)
  }

  /** What the scan for the latest version ends with, whatever the order of the map. */
  ghost predicate Reported(versions: map<Version, Service>, service: Option<Service>, v: Version) {
    && (forall w | w in versions :: !Above(w, v))
    && (if v == ZERO then service == None else v in versions && Above(v, ZERO) && service == Some(versions[v]))
  }

  /**
   The scan reports the unique greatest version, with its service, if and only if some
   registered version is above 0.0.0; otherwise it reports no service, and no error either.
   */
  lemma LatestExactly(versions: map<Version, Service>, service: Option<Service>, v: Version)
    requires Reported(versions, service, v)
    ensures (exists w :: w in versions && Above(w, ZERO))
            <==> IsLatest(versions, v) && service == Some(versions[v])
    ensures IsLatest(versions, v) ==> forall w | IsLatest(versions, w) :: w == v
    ensures !(exists w :: w in versions && Above(w, ZERO)) ==> service == None && v == ZERO
  {
    if w :| w in versions && Above(w, ZERO) {
      assert !Above(w, v);
    }
  }

  /**
   The same on the numbers. What is reported has the largest major number of all, the largest
   minor number among those, and the largest patch among those, with 0.0.0 taking part; it is
   registered, and comes with its service, unless it is 0.0.0.
   */
  lemma LatestByNumbers(versions: map<Version, Service>, service: Option<Service>, v: Version)
    requires Reported(versions, service, v)
    ensures forall w | w in versions || w == Version(0, 0, 0) ::
              && w.major <= v.major
              && (w.major == v.major ==> w.minor <= v.minor)
              && (w.major == v.major && w.minor == v.minor ==> w.patch <= v.patch)
    ensures if v == Version(0, 0, 0) then service == None else v in versions && service == Some(versions[v])
  {
    forall w | w in versions || w == Version(0, 0, 0) ensures !Above(w, v) {
    }
  }

  /** A registry that holds nothing but version 0.0.0 reports no service for it. */
  lemma ZeroIsNotReported(service: Service, reported: Option<Service>, v: Version)
    requires Reported(map[ZERO := service], reported, v)
    ensures reported == None
  {
    assert !Above(ZERO, ZERO);
  }

  class ServiceRegistry {
    var services: map<string, map<Version, Service>>

    constructor ()
      ensures services == map[]
    {
      services := map[];
    }

    method RegisterService(name: string, version: Version, service: Service)
      modifies this
      ensures services.Keys == old(services).Keys + {name}
      ensures services[name] == (if name in old(services) then old(services)[name] else map[])[version := service]
      ensures forall other | other in services && other != name :: services[other] == old(services)[other]
    {
      var versions := if name in services then services[name] else map[];
      services := services[name := versions[version := service]];
    }

    method GetLatestService(name: string)
      returns (r: Result<(Option<Service>, Version), RegistryError>)
      ensures r.Err? <==> name !in services
      ensures r.Ok? ==> Reported(services[name], r.value.0, r.value.1)
    {
      if name !in services {
        return Err(ServiceNotFound);
      }
      var versions := services[name];
      var latestService, latestVersion: Version := None, ZERO;
      var todo := versions.Keys;
      while todo != {}
        invariant todo <= versions.Keys
        invariant forall w | w in versions && w !in todo :: !Above(w, latestVersion)
        invariant if latestVersion == ZERO then latestService == None
                  else latestVersion in versions && Above(latestVersion, ZERO)
                       && latestService == Some(versions[latestVersion])
        decreases todo
      {
        var v :| v in todo;
        todo := todo - {v};
        if Above(v, latestVersion) {
          latestVersion, latestService := v, Some(versions[v]);
        }
      }
      return Ok((latestService, latestVersion));
    }
  }
}
