/** The string helpers of Go's strings and strconv packages, on ASCII bytes. */
module Text {
  import opened Common
  import Int64

  /** The same letter in the other case: the codes of the two cases are 32 apart. */
  predicate CaseTwins(upper: char, lower: char) {
    'A' <= upper <= 'Z' && lower as int == upper as int + 32
  }

  predicate SameLetter(c: char, d: char) {
    c == d || CaseTwins(c, d) || CaseTwins(d, c)
  }

  function LowerChar(c: char): (r: char)
    ensures SameLetter(c, r) && !('A' <= r <= 'Z')
  {
    if 'A' <= c <= 'Z' then ((c as int) + 32) as char else c
  }

  predicate SameUpToCase(s: string, t: string) {
    |s| == |t| && forall i :: 0 <= i < |s| ==> SameLetter(s[i], t[i])
  }

  function ToLower(s: string): (r: string)
    ensures |r| == |s|
    ensures forall i :: 0 <= i < |s| ==> r[i] == LowerChar(s[i])
  {
    seq(|s|, i requires 0 <= i < |s| => LowerChar(s[i]))
  }

  predicate IsSpace(c: char) {
    c == ' ' || c == '\t' || c == '\n' || c == '\r' || c == 11 as char || c == 12 as char
  }

  function TrimLeft(s: string): string {
    if s != [] && IsSpace(s[0]) then TrimLeft(s[1..]) else s
  }

  function TrimRight(s: string): string {
    if s != [] && IsSpace(s[|s| - 1]) then TrimRight(s[..|s| - 1]) else s
  }

  function TrimSpace(s: string): string {
    TrimRight(TrimLeft(s))
  }

  /** strings.Trim with a cutset of one character. */
  function TrimChar(s: string, c: char): string {
    if s != [] && s[0] == c then TrimChar(s[1..], c)
    else if s != [] && s[|s| - 1] == c then TrimChar(s[..|s| - 1], c)
    else s
  }

  function HasPrefix(s: string, prefix: string): bool {
    prefix <= s
  }

  function Contains(s: string, pattern: string): bool {
    pattern <= s || (s != [] && Contains(s[1..], pattern))
  }

  function Join(parts: seq<string>): string {
    if parts == [] then ""
    else if |parts| == 1 then parts[0]
    else parts[0] + "," + Join(parts[1..])
  }

  /** The text before the first separator, and the text after it if there is one. */
  function Cut(s: string, separator: char): (string, Option<string>) {
    if s == [] then ("", None)
    else if s[0] == separator then ("", Some(s[1..]))
    else
      var (before, after) := Cut(s[1..], separator);
      ([s[0]] + before, after)
  }

  // ---------- decimal numbers ----------

  predicate IsDigit(c: char) {
    '0' <= c <= '9'
  }

  function Digits(s: string): Option<nat> {
    if s == [] then Some(0)
    else
      var last := s[|s| - 1];
      match Digits(s[..|s| - 1])
      case None => None
      case Some(v) => if IsDigit(last) then Some(10 * v + (last as int - '0' as int)) else None
  }

  /** strconv.ParseInt(s, 10, 64). */
  function ParseInt(s: string): (r: Option<int>)
    ensures r.Some? ==> Int64.InRange(r.value)
  {
    var negative := s != [] && s[0] == '-';
    var digits := if s != [] && (s[0] == '-' || s[0] == '+') then s[1..] else s;
    if digits == [] then None
    else
      match Digits(digits)
      case None => None
      case Some(v) =>
        var magnitude: int := v;
        var n := if negative then -magnitude else magnitude;
        if Int64.InRange(n) then Some(n) else None
  }

  /** strconv.FormatInt of a non-negative number. */
  function FormatNat(n: nat): string {
    if n < 10 then [('0' as int + n) as char]
    else FormatNat(n / 10) + [('0' as int + n % 10) as char]
  }

  lemma {:induction false} FormatFacts(n: nat)
    ensures FormatNat(n) != [] && (forall c :: c in FormatNat(n) ==> IsDigit(c))
    ensures Digits(FormatNat(n)) == Some(n)
  {
    if n < 10 {
      var s := FormatNat(n);
      assert s[..|s| - 1] == [];
    } else {
      FormatFacts(n / 10);
      var s := FormatNat(n);
      assert s[..|s| - 1] == FormatNat(n / 10);
    }
  }

  /** A number written by FormatInt is read back unchanged by TrimSpace and ParseInt. */
  lemma FormatParse(n: nat)
    requires n <= Int64.MAX
    ensures ParseInt(TrimSpace(FormatNat(n))) == Some(n)
  {
    FormatFacts(n);
    var s := FormatNat(n);
    var first, last := s[0], s[|s| - 1];
    assert first in s && last in s;
    assert !IsSpace(first) && !IsSpace(last) && first != '-' && first != '+';
    assert TrimSpace(s) == s;
  }

  // ---------- what the helpers mean ----------

  lemma LowerIffSameUpToCase(s: string, t: string)
    ensures ToLower(s) == ToLower(t) <==> SameUpToCase(s, t)
  {
    if ToLower(s) == ToLower(t) {
      forall i | 0 <= i < |s| ensures SameLetter(s[i], t[i]) {
        assert ToLower(s)[i] == ToLower(t)[i];
      }
    }
  }

  /** The white space of ASCII: tab, line feed, vertical tab, form feed, carriage return
      and blank. */
  lemma SpaceCodes(c: char)
    ensures IsSpace(c) <==> 9 <= c as int <= 13 || c as int == 32
  {
  }

  predicate AllSpaces(s: string) {
    forall c :: c in s ==> IsSpace(c)
  }

  predicate NoOuterSpace(s: string) {
    s != [] ==> !IsSpace(s[0]) && !IsSpace(s[|s| - 1])
  }

  lemma {:induction false} TrimLeftPadded(left: string, s: string)
    requires AllSpaces(left) && (s != [] ==> !IsSpace(s[0]))
    ensures TrimLeft(left + s) == s
  {
    if left == [] {
      assert left + s == s;
    } else {
      assert left[0] in left && (left + s)[1..] == left[1..] + s;
      TrimLeftPadded(left[1..], s);
    }
  }

  lemma {:induction false} TrimRightPadded(s: string, right: string)
    requires AllSpaces(right) && (s != [] ==> !IsSpace(s[|s| - 1]))
    ensures TrimRight(s + right) == s
  {
    if right == [] {
      assert s + right == s;
    } else {
      var n := |right| - 1;
      assert right[n] in right && (s + right)[..|s + right| - 1] == s + right[..n];
      TrimRightPadded(s, right[..n]);
    }
  }

  /** TrimSpace takes off all white space at both ends and nothing else. */
  lemma TrimSpacePadded(left: string, s: string, right: string)
    requires AllSpaces(left) && AllSpaces(right) && NoOuterSpace(s)
    ensures TrimSpace(left + s + right) == s
  {
    assert left + s + right == left + (s + right);
    if s == [] {
      assert s + right == right && left + right == left + right + [];
      TrimLeftPadded(left + right, []);
    } else {
      TrimLeftPadded(left, s + right);
      TrimRightPadded(s, right);
    }
  }

  lemma {:induction false} TrimCharPadded(n: nat, s: string, m: nat, c: char)
    requires s != [] ==> s[0] != c && s[|s| - 1] != c
    ensures TrimChar(Repeated(c, n) + s + Repeated(c, m), c) == s
    decreases n + m
  {
    var t := Repeated(c, n) + s + Repeated(c, m);
    if n > 0 {
      assert t[1..] == Repeated(c, n - 1) + s + Repeated(c, m);
      TrimCharPadded(n - 1, s, m, c);
    } else if m > 0 {
      assert t == s + Repeated(c, m) && t[|t| - 1] == c;
      if s == [] {
        assert t[0] == c && t[1..] == Repeated(c, 0) + s + Repeated(c, m - 1);
      } else {
        assert t[0] == s[0] && t[..|t| - 1] == Repeated(c, 0) + s + Repeated(c, m - 1);
      }
      TrimCharPadded(0, s, m - 1, c);
    } else {
      assert t == s;
    }
  }

  function Repeated(c: char, n: nat): string {
    seq(n, i => c)
  }

  lemma {:induction false} ContainsIff(s: string, pattern: string)
    ensures Contains(s, pattern) <==> exists i :: 0 <= i <= |s| && pattern <= s[i..]
  {
    if s == [] {
      assert s[0..] == s;
    } else {
      ContainsIff(s[1..], pattern);
      assert s[0..] == s;
      if i :| 0 <= i <= |s[1..]| && pattern <= s[1..][i..] {
        assert s[1..][i..] == s[i + 1..];
      }
      if i :| 0 < i <= |s| && pattern <= s[i..] {
        assert s[1..][i - 1..] == s[i..];
      }
    }
  }

  lemma {:induction false} CutAt(before: string, after: string, separator: char)
    requires separator !in before
    ensures Cut(before + [separator] + after, separator) == (before, Some(after))
  {
    var s := before + [separator] + after;
    if before == [] {
      assert s[1..] == after;
    } else {
      assert s[0] == before[0] && s[1..] == before[1..] + [separator] + after;
      CutAt(before[1..], after, separator);
      assert before == [before[0]] + before[1..];
    }
  }

  lemma {:induction false} CutNothing(s: string, separator: char)
    requires separator !in s
    ensures Cut(s, separator) == (s, None)
  {
    if s != [] {
      assert s == [s[0]] + s[1..];
      CutNothing(s[1..], separator);
    }
  }

  predicate AllDigits(s: string) {
    forall c :: c in s ==> IsDigit(c)
  }

  lemma {:induction false} DigitsIff(s: string)
    ensures Digits(s).Some? <==> AllDigits(s)
  {
    if s != [] {
      DigitsIff(s[..|s| - 1]);
      assert s == s[..|s| - 1] + [s[|s| - 1]];
    }
  }

  /** A decimal numeral, with any leading zeros, a sign or none, is read as its value if
      that fits 64 bits; nothing else is a number. */
  lemma {:induction false} LeadingZeros(zeros: nat, n: nat)
    ensures Digits(Repeated('0', zeros) + FormatNat(n)) == Some(n)
  {
    FormatFacts(n);
    if zeros == 0 {
      assert Repeated('0', 0) + FormatNat(n) == FormatNat(n);
    } else {
      LeadingZeros(zeros - 1, n);
      var s := Repeated('0', zeros - 1) + FormatNat(n);
      assert Repeated('0', zeros) + FormatNat(n) == ['0'] + s;
      ZeroFirst(s);
    }
  }

  lemma {:induction false} ZeroFirst(s: string)
    ensures Digits(['0'] + s) == Digits(s)
  {
    var t := ['0'] + s;
    if s == [] {
      assert t[..0] == [];
    } else {
      assert t[..|t| - 1] == ['0'] + s[..|s| - 1];
      ZeroFirst(s[..|s| - 1]);
    }
  }

  lemma ParseSigned(zeros: nat, n: nat)
    ensures var digits := Repeated('0', zeros) + FormatNat(n);
            var value: int := n;
            && ParseInt(digits) == ParseInt(['+'] + digits) == (if value <= Int64.MAX then Some(value) else None)
            && ParseInt(['-'] + digits) == if -value >= Int64.MIN then Some(-value) else None
  {
    var digits := Repeated('0', zeros) + FormatNat(n);
    LeadingZeros(zeros, n);
    DigitsIff(digits);
    assert digits[0] in digits;
    assert (['+'] + digits)[1..] == digits && (['-'] + digits)[1..] == digits;
  }

  lemma ParseOnlyNumerals(s: string)
    requires ParseInt(s).Some?
    ensures s != [] && var digits := if s[0] == '-' || s[0] == '+' then s[1..] else s; digits != [] && AllDigits(digits)
  {
    DigitsIff(if s[0] == '-' || s[0] == '+' then s[1..] else s);
  }

  // ---------- separators ----------

  const NUL: char := 0 as char

  lemma SplitAtNul(a: string, b: string, c: string, d: string)
    requires NUL !in a && NUL !in c && a + [NUL] + b == c + [NUL] + d
    ensures a == c && b == d
  {
    var s, t := a + [NUL] + b, c + [NUL] + d;
    assert s[|a|] == NUL && t[|c|] == NUL;
    assert forall i :: 0 <= i < |a| ==> s[i] == a[i] && a[i] in a;
    assert forall i :: 0 <= i < |c| ==> t[i] == c[i] && c[i] in c;
    assert s[..|a|] == a && t[..|c|] == c;
    assert s[|a| + 1..] == b && t[|c| + 1..] == d;
  }

  lemma LowerKeepsNulOut(s: string)
    requires NUL !in s
    ensures NUL !in ToLower(s)
  {
  }
}
