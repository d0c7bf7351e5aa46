/** Vocabulary shared by the negotiation server and client: addresses,
    datagrams, the Option and Result wrappers, and the decimal text form in
    which integers (request codes, port numbers) travel between the two. */
module Wire {

  datatype Option<+T> = None | Some(value: T)

  datatype Result<+T, +E> = Ok(value: T) | Err(error: E)

  /** A TCP or UDP port number. */
  type Port = p: int | 0 <= p < 0x1_0000

  /** A (host, port) pair, as `recvfrom` reports it and `sendto` takes it. */
  datatype Address = Address(host: string, port: int)

  /** One UDP datagram: its payload as text and the remote party. For a
      datagram received, `peer` is the sender; for one sent, the destination. */
  datatype Datagram = Datagram(payload: string, peer: Address)

  /** What a command line can get wrong: too few arguments (Python's
      IndexError), or an argument that should be an integer and is not
      (ValueError). */
  datatype ArgError = MissingArgument | NotInteger

  predicate IsDigit(c: char) {
    '0' <= c <= '9'
  }

  predicate AllDigits(s: string) {
    forall i :: 0 <= i < |s| ==> IsDigit(s[i])
  }

  function DigitChar(d: nat): (c: char)
    requires d < 10
    ensures IsDigit(c) && (c as int) - ('0' as int) == d
  {
    (('0' as int) + d) as char
  }

  function DigitValue(c: char): nat
    requires IsDigit(c)
  {
    (c as int) - ('0' as int)
  }

  /** Decimal digits of a non-negative integer, without leading zeros. */
  function NatToString(n: nat): (r: string)
    ensures |r| >= 1 && AllDigits(r)
    decreases n
  {
    if n < 10 then [DigitChar(n)] else NatToString(n / 10) + [DigitChar(n % 10)]
  }

  /** Python's `str` on an int: a minus sign for negatives, then the digits. */
  function IntToString(i: int): (r: string)
    ensures |r| >= 1 && (r[0] == '-' <==> i < 0)
  {
    if i < 0 then "-" + NatToString(-i) else NatToString(i)
  }

  /** The value of a non-empty string of decimal digits, most significant
      first; `None` when the string is empty or holds anything else. */
  function ParseDigits(s: string): (r: Option<nat>)
    ensures r.Some? <==> |s| >= 1 && AllDigits(s)
    decreases |s|
  {
    if s == [] || !IsDigit(s[|s| - 1]) then None
    else if |s| == 1 then Some(DigitValue(s[0]))
    else match ParseDigits(s[..|s| - 1])
      case None => None
      case Some(v) => Some(v * 10 + DigitValue(s[|s| - 1]))
  }

  /** `s` without its leading sign, if it has one. */
  function Magnitude(s: string): string {
    if s != [] && (s[0] == '-' || s[0] == '+') then s[1..] else s
  }

  /** Python's `int` on a text payload: an optional sign followed by at least
      one decimal digit; anything else is the ValueError case, `None`. */
  function ParseInt(s: string): (r: Option<int>)
    ensures r.Some? <==> |Magnitude(s)| >= 1 && AllDigits(Magnitude(s))
    ensures r.Some? && r.value < 0 ==> s[0] == '-'
  {
    if s != [] && (s[0] == '-' || s[0] == '+') then
      match ParseDigits(s[1..])
      case None => None
      case Some(v) => Some(if s[0] == '-' then -(v as int) else v as int)
    else
      match ParseDigits(s)
      case None => None
      case Some(v) => Some(v)
  }

  /** The digits of `n` form a non-empty digit string whose value is `n`. */
  lemma {:induction false} NatToStringDigits(n: nat)
    ensures |NatToString(n)| >= 1 && AllDigits(NatToString(n))
    ensures ParseDigits(NatToString(n)) == Some(n)
    decreases n
  {
    if n >= 10 {
      NatToStringDigits(n / 10);
      var prefix, s := NatToString(n / 10), NatToString(n);
      assert s == prefix + [DigitChar(n % 10)];
      assert s[..|s| - 1] == prefix;
    }
  }

  /** Reading back what `IntToString` wrote gives the same integer: the
      decimal form sent on the wire is understood by the receiver. */
  lemma ParseIntToString(i: int)
    ensures ParseInt(IntToString(i)) == Some(i)
  {
    var s := IntToString(i);
    if i < 0 {
      NatToStringDigits(-i);
      assert s[0] == '-' && s[1..] == NatToString(-i);
      assert ParseDigits(s[1..]) == Some(-i);
    } else {
      NatToStringDigits(i);
      assert s == NatToString(i) && IsDigit(s[0]);
    }
  }

  /** Distinct integers are written differently. */
  lemma IntToStringInjective(i: int, j: int)
    requires IntToString(i) == IntToString(j)
    ensures i == j
  {
    ParseIntToString(i);
    ParseIntToString(j);
  }

  /** A decimal integer starts with a minus sign or a digit, so it is never
      one of the literal replies `ok` and `no`. */
  lemma IntToStringNotWord(i: int)
    ensures |IntToString(i)| >= 1
    ensures IntToString(i)[0] == '-' || IsDigit(IntToString(i)[0])
    ensures IntToString(i) != "ok" && IntToString(i) != "no"
  {
    NatToStringDigits(if i < 0 then -i else i);
  }

  /** The literal `-1` the server sends is the decimal form of -1, and the
      literal acknowledgements are not integers. */
  lemma LiteralReplies()
    ensures IntToString(-1) == "-1"
    ensures ParseInt("-1") == Some(-1)
    ensures ParseInt("ok") == None && ParseInt("no") == None
  {
    ParseIntToString(-1);
    assert ParseDigits("o") == None;
    assert ParseDigits("n") == None;
  }
}
