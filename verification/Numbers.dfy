/** Decimal numbers: the parser's reader and the writers' formatters. */
module Numbers {
  import opened Bytes

  predicate IsDigit(c: Byte) {
    ZERO <= c <= NINE
  }

  predicate IsNumber(s: seq<Byte>) {
    s != [] && forall i | 0 <= i < |s| :: IsDigit(s[i])
  }

  /** The value of a string of digits. */
  function Value(s: seq<Byte>): nat
    requires forall i | 0 <= i < |s| :: IsDigit(s[i])
  {
    if s == [] then 0
    else
      var last := s[|s| - 1];
      assert IsDigit(last);
      10 * Value(s[..|s| - 1]) + (last - ZERO)
  }

  /** The value once more: every digit times the power of ten of its place. */
  function Weigh(s: seq<Byte>): nat
    requires forall i | 0 <= i < |s| :: 48 <= s[i] <= 57
  {
    if s == [] then 0
    else
      var first := s[0];
      assert 48 <= first;
      (first - 48) * Pow10(|s| - 1) + Weigh(s[1..])
  }

  lemma {:induction false} ValueWeighs(s: seq<Byte>)
    requires forall i | 0 <= i < |s| :: 48 <= s[i] <= 57
    ensures Value(s) == Weigh(s)
  {
    if s != [] {
      var n := |s| - 1;
      ValueWeighs(s[..n]);
      WeighLast(s[..n], s[n]);
      assert s == s[..n] + [s[n]];
    }
  }

  lemma {:induction false} WeighLast(s: seq<Byte>, c: Byte)
    requires (forall i | 0 <= i < |s| :: 48 <= s[i] <= 57) && 48 <= c <= 57
    ensures Weigh(s + [c]) == 10 * Weigh(s) + (c - 48)
  {
    if s == [] {
      assert s + [c] == [c] && Weigh([c]) == (c - 48) * Pow10(0) + Weigh([]);
    } else {
      var first := s[0];
      assert (s + [c])[1..] == s[1..] + [c];
      WeighLast(s[1..], c);
      TimesTen(first - 48, |s| - 1);
    }
  }

  lemma TimesTen(d: nat, k: nat)
    ensures d * Pow10(k + 1) == 10 * (d * Pow10(k))
  {
  }

  // A number is one or more of the characters 0 to 9; "123" is one hundred and twenty-three.
  lemma NumberExactly(s: seq<Byte>)
    ensures IsNumber(s) <==> |s| > 0 && forall i | 0 <= i < |s| :: 48 <= s[i] <= 57
    ensures s == [49, 50, 51] ==> Value(s) == 123
  {
    if s == [49, 50, 51] {
      ValueWeighs(s);
      assert s[1..] == [50, 51] && s[1..][1..] == [51] && s[1..][1..][1..] == [];
      assert Weigh([51]) == 3 * Pow10(0) + Weigh([]);
      assert Weigh([50, 51]) == 2 * Pow10(1) + Weigh([51]);
      assert Pow10(1) == 10 && Pow10(2) == 100;
    }
  }

  // A prefix is worth no more than the whole.
  lemma {:induction false} ValueGrows(s: seq<Byte>, n: nat)
    requires n <= |s| && forall i | 0 <= i < |s| :: IsDigit(s[i])
    ensures Value(s[..n]) <= Value(s)
  {
    if n < |s| {
      assert s[..|s| - 1][..n] == s[..n];
      ValueGrows(s[..|s| - 1], n);
    } else {
      assert s[..n] == s;
    }
  }

  datatype Option<T> = None | Some(value: T)

  /** Accepts exactly the nonempty decimal numbers up to the limit; the running value never passes the limit. */
  method ParseUint(s: seq<Byte>, limit: nat) returns (r: Option<nat>)
    ensures r == if IsNumber(s) && Value(s) <= limit then Some(Value(s)) else None
  {
    if |s| == 0 {
      return None;
    }
    var value := 0;
    for i := 0 to |s|
      invariant forall j | 0 <= j < i :: IsDigit(s[j])
      invariant value == Value(s[..i]) && value <= limit
    {
      var c := s[i];
      if c < ZERO || c > NINE {
        return None;
      }
      var digit := c - ZERO;
      assert s[..i + 1][..i] == s[..i];
      if value > limit / 10 || (value == limit / 10 && digit > limit % 10) {
        if IsNumber(s) {
          ValueGrows(s, i + 1);
        }
        return None;
      }
      value := value * 10 + digit;
    }
    assert s[..|s|] == s;
    return Some(value);
  }

  // ---- formatting

  /** The digits of a number, most significant first, without leading zeros. */
  function Digits(n: nat): (s: seq<Byte>)
    ensures IsNumber(s) && Value(s) == n
    ensures |s| > 1 ==> s[0] != ZERO
  {
    var last := [ZERO + n % 10];
    if n < 10 then last
    else
      var front := Digits(n / 10);
      assert (front + last)[..|front|] == front;
      front + last
  }

  lemma DigitsStep(n: nat)
    ensures Digits(n) == (if n < 10 then [] else Digits(n / 10)) + [ZERO + n % 10]
  {
  }

  // The only number without leading zeros that has the value.
  lemma {:induction false} DigitsUnique(s: seq<Byte>)
    requires IsNumber(s) && (|s| > 1 ==> s[0] != ZERO)
    ensures Digits(Value(s)) == s
  {
    var n := |s| - 1;
    var front := s[..n];
    assert s == front + [s[n]];
    if n > 0 {
      DigitsUnique(front);
      ValuePositive(front);
      assert Value(s) / 10 == Value(front) && Value(s) % 10 == s[n] - ZERO;
    }
  }

  lemma {:induction false} ValuePositive(s: seq<Byte>)
    requires IsNumber(s) && s[0] != ZERO
    ensures Value(s) > 0
  {
    if |s| > 1 {
      ValuePositive(s[..|s| - 1]);
    }
  }

  function Pow10(k: nat): nat {
    if k == 0 then 1 else 10 * Pow10(k - 1)
  }

  // A number below 10^k has at most k digits.
  lemma {:induction false} DigitsFit(n: nat, k: nat)
    requires k > 0 && n < Pow10(k)
    ensures |Digits(n)| <= k
  {
    if n >= 10 {
      DigitsFit(n / 10, k - 1);
    }
  }

  // 32-bit numbers fit 10 bytes, 64-bit numbers 20.
  lemma DigitsFitBuffers(n: nat)
    ensures n <= UINT32_MAX ==> |Digits(n)| <= 10
    ensures n <= SIZE_MAX ==> |Digits(n)| <= 20
  {
    assert Pow10(10) == 100_0000_0000;
    assert Pow10(20) == 100_0000_0000 * 100_0000_0000 by {
      assert Pow10(15) == 100000 * Pow10(10);
      assert Pow10(20) == 100000 * Pow10(15);
    }
    if n <= UINT32_MAX {
      DigitsFit(n, 10);
    }
    if n <= SIZE_MAX {
      DigitsFit(n, 20);
    }
  }

  /** Format backwards, ending at `end`; returns where the digits start. */
  method FormatUint(buf: array<Byte>, end: nat, value: nat) returns (start: nat)
    requires |Digits(value)| <= end <= buf.Length
    modifies buf
    ensures start + |Digits(value)| == end && buf[start..end] == Digits(value)
    ensures forall i | 0 <= i < buf.Length && !(start <= i < end) :: buf[i] == old(buf[i])
  {
    start := end;
    var rest: nat := value;
    while true
      invariant start <= end && Digits(value) == Digits(rest) + buf[start..end]
      invariant forall i | 0 <= i < buf.Length && !(start <= i < end) :: buf[i] == old(buf[i])
      decreases rest
    {
      ghost var tail := buf[start..end];
      start := start - 1;
      buf[start] := ZERO + rest % 10;
      assert buf[start..end] == [ZERO + rest % 10] + tail;
      rest := rest / 10;
      if rest == 0 {
        break;
      }
    }
  }
}
