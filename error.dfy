/** The errors the BOF parser reports, and the text each one displays. */
module Error {
  import opened Bytes

  /** Why a buffer was refused. Equality is structural, as the derived `PartialEq` makes it. */
  datatype BofError =
    | InvalidArchive(reason: string)
    | VersionTooHigh(expected: byte, version: byte)
    | InvalidChecksum

  /** The outcome of a fallible codec operation. */
  datatype Result<T> = Ok(value: T) | Err(error: BofError)

  /** The text the error displays. */
  function Message(e: BofError): string
  {
    match e
    case InvalidArchive(reason) => "invalid archive: " + reason
    case VersionTooHigh(expected, version) =>
      "archive version is too high: " + Decimal(expected) + " < " + Decimal(version)
    case InvalidChecksum => "invalid checksum"
  }

  predicate IsDigit(c: char)
  {
    '0' as int <= c as int <= '9' as int
  }

  /** The decimal digits of `n`, most significant first, as `{}` formats an unsigned integer. */
  function Decimal(n: nat): (s: string)
    ensures |s| > 0
    ensures forall i :: 0 <= i < |s| ==> IsDigit(s[i])
    ensures n < 10 <==> |s| == 1
  {
    if n < 10 then [('0' as int + n) as char]
    else Decimal(n / 10) + [('0' as int + n % 10) as char]
  }

  /** The number a string of decimal digits denotes. */
  function DecimalValue(s: string): nat
    requires forall i :: 0 <= i < |s| ==> IsDigit(s[i])
  {
    if s == [] then 0
    else
      assert IsDigit(s[|s| - 1]);
      10 * DecimalValue(s[..|s| - 1]) + (s[|s| - 1] as int - '0' as int)
  }

  /** Reading back the digits `Decimal` writes gives the number: no two numbers display alike. */
  lemma {:induction false} DecimalRoundTrip(n: nat)
    ensures DecimalValue(Decimal(n)) == n
  {
    if n >= 10 {
      DecimalRoundTrip(n / 10);
      var s := Decimal(n);
      assert s[..|s| - 1] == Decimal(n / 10);
    }
  }

  /** In `a + sep + b`, with `a` all digits and `sep` starting with a non-digit, the split is unique. */
  lemma SplitAtSeparator(a: string, b: string, c: string, d: string, sep: string)
    requires forall i :: 0 <= i < |a| ==> IsDigit(a[i])
    requires forall i :: 0 <= i < |c| ==> IsDigit(c[i])
    requires |sep| > 0 && !IsDigit(sep[0])
    requires a + sep + b == c + sep + d
    ensures a == c && b == d
  {
    var x := a + sep + b;
    assert x[|a|] == sep[0] && x[|c|] == sep[0];
    assert a == x[..|a|] == c;
    assert b == x[|a| + |sep|..] == d;
  }

  /** The first letter of a message tells a version error from the others; the ninth tells the other two apart. */
  lemma MessageKind(e: BofError)
    ensures |Message(e)| > 8
    ensures Message(e)[0] == (if e.VersionTooHigh? then 'a' else 'i')
    ensures !e.VersionTooHigh? ==> Message(e)[8] == (if e.InvalidArchive? then 'a' else 'c')
  {
  }

  lemma InvalidArchiveMessages(r1: string, r2: string)
    requires Message(InvalidArchive(r1)) == Message(InvalidArchive(r2))
    ensures r1 == r2
  {
    var m := Message(InvalidArchive(r1));
    assert r1 == m[17..] == r2;
  }

  lemma VersionMessages(x1: byte, v1: byte, x2: byte, v2: byte)
    requires Message(VersionTooHigh(x1, v1)) == Message(VersionTooHigh(x2, v2))
    ensures x1 == x2 && v1 == v2
  {
    var m := Message(VersionTooHigh(x1, v1));
    var tail1 := Decimal(x1) + " < " + Decimal(v1);
    var tail2 := Decimal(x2) + " < " + Decimal(v2);
    assert tail1 == m[29..] == tail2;
    SplitAtSeparator(Decimal(x1), Decimal(v1), Decimal(x2), Decimal(v2), " < ");
    DecimalRoundTrip(x1);
    DecimalRoundTrip(x2);
    DecimalRoundTrip(v1);
    DecimalRoundTrip(v2);
  }

  /** Distinct errors display distinct texts, so the text identifies the error. */
  lemma MessageIdentifiesError(e1: BofError, e2: BofError)
    requires Message(e1) == Message(e2)
    ensures e1 == e2
  {
    MessageKind(e1);
    MessageKind(e2);
    match e1
    case InvalidArchive(r1) =>
      InvalidArchiveMessages(r1, e2.reason);
    case VersionTooHigh(x1, v1) =>
      VersionMessages(x1, v1, e2.expected, e2.version);
    case InvalidChecksum =>
  }
}
