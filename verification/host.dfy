/**
 * The server's bind address: the configured host string is split on '.',
 * every piece is parsed as an unsigned byte with Rust's `u8::from_str`, and
 * exactly four bytes must result. Any failure is a panic at start-up, shown
 * here as `None`.
 */
module Host {

  import opened Wrappers
  import opened Text

  type Octet = x: int | 0 <= x < 256

  predicate IsDigit(c: char) {
    '0' <= c <= '9'
  }

  predicate AllDigits(s: string) {
    forall i :: 0 <= i < |s| ==> IsDigit(s[i])
  }

  /** The decimal value of a string of digits, most significant first. */
  function DigitsValue(d: string): (n: nat)
    requires AllDigits(d)
  {
    if d == [] then 0
    else DigitsValue(d[..|d| - 1]) * 10 + (d[|d| - 1] as int - '0' as int)
  }

  function DigitOf(c: char): nat
    requires IsDigit(c)
  {
    c as int - '0' as int
  }

  /**
   * The digit loop of `u8::from_str`: left to right, the running value is
   * multiplied by ten and the next digit added, failing on a non-digit or
   * as soon as the value leaves the byte range.
   */
  function Accumulate(acc: Octet, d: string): Option<Octet>
    decreases |d|
  {
    if d == [] then Some(acc)
    else if !IsDigit(d[0]) then None
    else if acc * 10 + DigitOf(d[0]) > 255 then None
    else Accumulate(acc * 10 + DigitOf(d[0]), d[1..])
  }

  /**
   * `u8::from_str`: a lone sign fails, a leading '+' is dropped, then the
   * digit loop runs over the rest. It accepts exactly an optional '+' and
   * one or more decimal digits whose value is at most 255.
   */
  function ParseOctet(s: string): (r: Option<Octet>)
    ensures r.Some? <==>
      var d := if s != [] && s[0] == '+' then s[1..] else s;
      d != [] && AllDigits(d) && DigitsValue(d) < 256
    ensures r.Some? ==> r.value == DigitsValue(if s[0] == '+' then s[1..] else s)
  {
    if s == [] || s == "+" || s == "-" then None
    else
      var d := if s[0] == '+' then s[1..] else s;
      AccumulateMeaning([], d);
      assert [] + d == d;
      Accumulate(0, d)
  }

  /** Appending digits never lowers the value. */
  lemma {:induction false} DigitsValueGrows(x: string, r: string)
    requires AllDigits(x + r)
    ensures AllDigits(x) && DigitsValue(x + r) >= DigitsValue(x)
  {
    assert AllDigits(x) by {
      forall i | 0 <= i < |x| ensures IsDigit(x[i]) { assert x[i] == (x + r)[i]; }
    }
    if r != [] {
      var r' := r[..|r| - 1];
      assert (x + r)[..|x + r| - 1] == x + r';
      DigitsValueGrows(x, r');
    } else {
      assert x + r == x;
    }
  }

  /**
   * After the digits `p` have been read, the digit loop over `q` ends with
   * the positional value of `p + q` when that is a byte, and fails otherwise.
   */
  lemma {:induction false} AccumulateMeaning(p: string, q: string)
    requires AllDigits(p) && DigitsValue(p) < 256
    ensures Accumulate(DigitsValue(p), q) ==
      if AllDigits(p + q) && DigitsValue(p + q) < 256 then Some(DigitsValue(p + q)) else None
    decreases |q|
  {
    if q == [] {
      assert p + q == p;
    } else if !IsDigit(q[0]) {
      assert (p + q)[|p|] == q[0];
    } else {
      var p' := p + [q[0]];
      assert p'[..|p'| - 1] == p;
      assert p' + q[1..] == p + q;
      var v := DigitsValue(p) * 10 + DigitOf(q[0]);
      assert DigitsValue(p') == v;
      if v > 255 {
        if AllDigits(p + q) {
          DigitsValueGrows(p', q[1..]);
        }
      } else {
        assert AllDigits(p') by {
          forall i | 0 <= i < |p'| ensures IsDigit(p'[i]) { if i < |p| { assert p'[i] == p[i]; } }
        }
        AccumulateMeaning(p', q[1..]);
      }
    }
  }

  /** `k` zero digits. */
  function Zeros(k: nat): (z: string)
    ensures |z| == k && AllDigits(z)
  {
    seq(k, _ => '0')
  }

  /** Leading zeros do not change a value. */
  lemma {:induction false} ZerosValue(k: nat, x: string)
    requires AllDigits(x)
    ensures AllDigits(Zeros(k) + x) && DigitsValue(Zeros(k) + x) == DigitsValue(x)
  {
    var zx := Zeros(k) + x;
    assert AllDigits(zx) by {
      forall i | 0 <= i < |zx| ensures IsDigit(zx[i]) { if i >= k { assert zx[i] == x[i - k]; } }
    }
    if x != [] {
      var x' := x[..|x| - 1];
      assert zx[..|zx| - 1] == Zeros(k) + x';
      ZerosValue(k, x');
    } else if k > 0 {
      assert zx[..|zx| - 1] == Zeros(k - 1) + x;
      ZerosValue(k - 1, x);
    }
  }

  /** A string of digits whose value is zero consists of zeros only. */
  lemma {:induction false} ZeroValueIsZeros(d: string)
    requires AllDigits(d) && DigitsValue(d) == 0
    ensures d == Zeros(|d|)
  {
    if d != [] {
      var d' := d[..|d| - 1];
      ZeroValueIsZeros(d');
      assert d == d' + [d[|d| - 1]];
    }
  }

  /** Every string of digits is some zeros in front of the decimal spelling of its value. */
  lemma {:induction false} DigitsSpelling(d: string)
    requires d != [] && AllDigits(d)
    ensures |Decimal(DigitsValue(d))| <= |d|
    ensures d == Zeros(|d| - |Decimal(DigitsValue(d))|) + Decimal(DigitsValue(d))
  {
    var d' := d[..|d| - 1];
    var c := d[|d| - 1];
    var n := DigitsValue(d);
    assert d == d' + [c];
    if DigitsValue(d') == 0 {
      ZeroValueIsZeros(d');
      assert n == DigitOf(c) && n < 10;
      assert Decimal(n) == [c];
    } else {
      DigitsSpelling(d');
      var m := DigitsValue(d');
      assert n / 10 == m && n % 10 == DigitOf(c);
      assert Decimal(n) == Decimal(m) + [c];
    }
  }

  /** Any optional '+', any leading zeros and the decimal spelling of a byte parse to that byte. */
  lemma ParseOctetSpelled(sign: string, k: nat, n: Octet)
    requires sign == "" || sign == "+"
    ensures ParseOctet(sign + Zeros(k) + Decimal(n)) == Some(n)
  {
    var d := Zeros(k) + Decimal(n);
    DecimalValue(n);
    ZerosValue(k, Decimal(n));
    assert d != [] && d[0] != '+' by {
      if k == 0 { assert d == Decimal(n); } else { assert d[0] == '0'; }
    }
    var s := sign + d;
    assert sign + Zeros(k) + Decimal(n) == s;
    assert s != [] && (if s[0] == '+' then s[1..] else s) == d by {
      if sign == "+" { assert s[1..] == d; } else { assert s == d; }
    }
    assert ParseOctet(s).Some? && ParseOctet(s).value == DigitsValue(d);
  }

  /** Conversely, every string that parses to a byte is spelled that way. */
  lemma ParseOctetOnlySpelled(s: string)
    requires ParseOctet(s).Some?
    ensures var sign := if s[0] == '+' then "+" else "";
            var n := ParseOctet(s).value;
            |sign| + |Decimal(n)| <= |s| && s == sign + Zeros(|s| - |sign| - |Decimal(n)|) + Decimal(n)
  {
    var sign := if s[0] == '+' then "+" else "";
    var d := if s[0] == '+' then s[1..] else s;
    assert s == sign + d;
    assert ParseOctet(s).value == DigitsValue(d);
    SignedSpelling(sign, d);
  }

  /** A sign in front of digits, then the digits as zeros and the decimal spelling of their value. */
  lemma SignedSpelling(sign: string, d: string)
    requires d != [] && AllDigits(d)
    ensures |sign| + |Decimal(DigitsValue(d))| <= |sign + d|
    ensures sign + d == sign + Zeros(|sign + d| - |sign| - |Decimal(DigitsValue(d))|) + Decimal(DigitsValue(d))
  {
    DigitsSpelling(d);
    var z := Zeros(|d| - |Decimal(DigitsValue(d))|);
    assert |sign + d| - |sign| == |d|;
    assert sign + d == sign + (z + Decimal(DigitsValue(d)));
  }

  function DigitChar(n: nat): (c: char)
    requires n < 10
    ensures IsDigit(c) && c as int - '0' as int == n
  {
    ('0' as int + n) as char
  }

  /** The shortest decimal spelling of `n`, as `Ipv4Addr` prints each byte. */
  function Decimal(n: nat): (d: string)
    ensures d != [] && AllDigits(d)
    ensures d[0] != '+'
  {
    if n < 10 then [DigitChar(n)] else Decimal(n / 10) + [DigitChar(n % 10)]
  }

  /** Reading back the decimal spelling of `n` gives `n`. */
  lemma {:induction false} DecimalValue(n: nat)
    ensures DigitsValue(Decimal(n)) == n
  {
    var d := Decimal(n);
    if n >= 10 {
      assert d[..|d| - 1] == Decimal(n / 10);
      DecimalValue(n / 10);
    }
  }

  /** Every byte survives printing and parsing. */
  lemma ParseOctetDecimal(n: Octet)
    ensures ParseOctet(Decimal(n)) == Some(n)
  {
    ParseOctetSpelled("", 0, n);
    assert "" + Zeros(0) + Decimal(n) == Decimal(n);
  }

  /** `map(parse).collect::<Vec<u8>>()`, which fails as soon as one piece fails. */
  function ParseOctets(parts: seq<string>): (r: Option<seq<Octet>>)
    ensures r.Some? <==> forall i :: 0 <= i < |parts| ==> ParseOctet(parts[i]).Some?
    ensures r.Some? ==> |r.value| == |parts|
    ensures r.Some? ==> forall i :: 0 <= i < |parts| ==> ParseOctet(parts[i]) == Some(r.value[i])
  {
    if parts == [] then Some([])
    else
      match ParseOctet(parts[0])
      case None => None
      case Some(b) =>
        match ParseOctets(parts[1..])
        case None => None
        case Some(rest) => Some([b] + rest)
  }

  /** The host string as `[u8; 4]`: split, parse every piece, and demand exactly four. */
  function ParseHost(host: string): (r: Option<seq<Octet>>)
    ensures r.Some? <==>
      var parts := Split(host, '.');
      |parts| == 4 && forall i :: 0 <= i < 4 ==> ParseOctet(parts[i]).Some?
    ensures r.Some? ==> |r.value| == 4
    ensures r.Some? ==> forall i :: 0 <= i < 4 ==> ParseOctet(Split(host, '.')[i]) == Some(r.value[i])
  {
    match ParseOctets(Split(host, '.'))
    case None => None
    case Some(bytes) => if |bytes| == 4 then Some(bytes) else None
  }

  /** The dotted-quad spelling of four bytes, as `Ipv4Addr` displays them. */
  function FormatHost(bytes: seq<Octet>): string
    requires |bytes| == 4
  {
    Join([Decimal(bytes[0]), Decimal(bytes[1]), Decimal(bytes[2]), Decimal(bytes[3])], '.')
  }

  /** Every address the server can be bound to is accepted in its dotted-quad spelling. */
  lemma ParseFormatHost(bytes: seq<Octet>)
    requires |bytes| == 4
    ensures ParseHost(FormatHost(bytes)) == Some(bytes)
  {
    var parts := [Decimal(bytes[0]), Decimal(bytes[1]), Decimal(bytes[2]), Decimal(bytes[3])];
    forall i | 0 <= i < 4
      ensures '.' !in parts[i] && ParseOctet(parts[i]) == Some(bytes[i])
    {
      ParseOctetDecimal(bytes[i]);
    }
    SplitJoin(parts, '.');
    assert Split(FormatHost(bytes), '.') == parts;
    var r := ParseOctets(parts);
    assert r.Some? && r.value == bytes;
  }
}
