/** Two small families of response headers, and what the storage rules make of them. */
module Headers {
  import opened Common
  import opened Text
  import opened CacheControl
  import opened Policy
  import Int64

  function Simple(): Request {
    Request("GET", "h", "/", map[])
  }

  // ---------- Expires and Age ----------

  function Dated(date: string, age: nat): Header {
    map[Field.Expires := [date], Field.Age := [FormatNat(age)]]
  }

  lemma DatedMeans(date: string, age: nat, untilExpires: int)
    requires SecondsFit(age)
    ensures Refusal(200, Dated(date, age)).None?
    ensures LifetimeOf(Dated(date, age), Some(untilExpires)) == Until(untilExpires)
    ensures AgeOf(Dated(date, age)) == Some(age)
  {
    NoDirectives(Dated(date, age));
    FormatParse(age);
  }

  lemma NoDirectives(header: Header)
    requires header.Keys !! {Field.CacheControl, Field.SetCookie, Field.Vary}
    ensures Refusal(200, header).None?
    ensures SecondsOf(Parts(CacheControlValue(header)), "s-maxage").Absent?
    ensures SecondsOf(Parts(CacheControlValue(header)), "max-age").Absent?
  {
    assert ToLower("") == "" && CacheControlValue(header) == "" && Parts("") == [""];
    assert DirectiveName("") == "";
    NamedIff([""], "s-maxage");
    NamedIff([""], "max-age");
  }

  /** The underflow at work: a response that expired more than 292 years ago and is one
      second old is stored for almost 292 years. */
  lemma AncientResponseStored(date: string, defaultTtl: int)
    ensures Evaluate(Simple(), 200, Dated(date, 1), defaultTtl, Some(Int64.MIN))
         == Decision(true, Int64.MAX + 1 - Int64.SECOND, Cacheable)
  {
    EmptyRequestEligible();
    DatedMeans(date, 1, Int64.MIN);
    assert Int64.Wrap(Int64.MIN - Int64.SECOND) == Int64.MAX + 1 - Int64.SECOND;
  }

  // ---------- max-age ----------

  function Limited(seconds: nat): Header {
    map[Field.CacheControl := ["max-age" + ['='] + FormatNat(seconds)]]
  }

  lemma LimitedMeans(seconds: nat, untilExpires: Option<int>)
    requires SecondsFit(seconds)
    ensures Refusal(200, Limited(seconds)).None?
    ensures LifetimeOf(Limited(seconds), untilExpires) == Explicit(seconds)
    ensures AgeOf(Limited(seconds)) == Some(0)
  {
    var digits := FormatNat(seconds);
    FormatFacts(seconds);
    NamePlain("max-age", digits);
    DirectiveReads("max-age", digits);
    DigitsUntrimmed(digits);
    FormatParse(seconds);
    MaxAgeHeader(Limited(seconds), "max-age" + ['='] + digits, seconds, untilExpires);
  }

  lemma NamePlain(name: string, digits: string)
    requires (forall c :: c in name ==> IsNameChar(c)) && (forall c :: c in digits ==> IsDigit(c))
    ensures var value := CacheControlValue(map[Field.CacheControl := [name + ['='] + digits]]);
            value == name + ['='] + digits && Balanced(value) && Parts(value) == [value]
  {
    OneDirective(name, digits);
  }

  lemma MaxAgeHeader(header: Header, value: string, seconds: nat, untilExpires: Option<int>)
    requires header.Keys == {Field.CacheControl} && SecondsFit(seconds)
    requires CacheControlValue(header) == value && Balanced(value) && Parts(value) == [value]
    requires DirectiveName(value) == "max-age" && DirectiveArgument(value) == Some(seconds)
    ensures Refusal(200, header).None?
    ensures LifetimeOf(header, untilExpires) == Explicit(seconds) && AgeOf(header) == Some(0)
  {
    MaxAgeOnly(value, seconds);
  }

  predicate IsNameChar(c: char) {
    'a' <= c <= 'z' || c == '-'
  }

  lemma OneDirective(name: string, digits: string)
    requires (forall c :: c in name ==> IsNameChar(c)) && (forall c :: c in digits ==> IsDigit(c))
    ensures var value := name + ['='] + digits;
            ToLower(value) == value && Balanced(value) && Parts(value) == [value]
  {
    var value := name + ['='] + digits;
    forall i | 0 <= i < |value| ensures LowerChar(value[i]) == value[i] && value[i] != ',' && value[i] != '"' {
      assert value[i] in name || value[i] == '=' || value[i] in digits;
    }
    assert ToLower(value) == value;
    UnquotedStaysPlain(value);
    OnePiece(value);
  }

  lemma DirectiveReads(name: string, digits: string)
    requires name != [] && forall c :: c in name ==> IsNameChar(c)
    requires digits != [] && forall c :: c in digits ==> IsDigit(c)
    ensures DirectiveName(name + ['='] + digits) == name
    ensures DirectiveArgument(name + ['='] + digits) == ParseInt(digits)
  {
    CutAt(name, digits, '=');
    assert name[0] in name && name[|name| - 1] in name;
    assert TrimSpace(name) == name;
    DigitsUntrimmed(digits);
    UnsignedParse(digits);
  }

  lemma UnsignedParse(digits: string)
    requires digits != [] && forall c :: c in digits ==> IsDigit(c)
    ensures ParseInt(digits).Some? ==> ParseInt(digits).value >= 0
  {
    assert digits[0] in digits;
  }

  lemma DigitsUntrimmed(digits: string)
    requires digits != [] && forall c :: c in digits ==> IsDigit(c)
    ensures TrimSpace(digits) == digits && TrimChar(digits, '\"') == digits
  {
    assert digits[0] in digits && digits[|digits| - 1] in digits;
  }

  lemma MaxAgeOnly(value: string, seconds: nat)
    requires DirectiveName(value) == "max-age" && DirectiveArgument(value) == Some(seconds)
    ensures Prohibition([value]).None?
    ensures SecondsOf([value], "s-maxage").Absent? && SecondsOf([value], "max-age") == Valid(seconds)
  {
    NamedIff([value], "s-maxage");
    assert [value][..0] == [];
    assert Named([value], "max-age") == [value];
  }
}
