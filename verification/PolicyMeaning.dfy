/**
 What the shared-cache rules decide, read off the header lines themselves: which requests
 and responses are refused, how a directive is written, and which of s-maxage, max-age,
 Expires and the default grants the lifetime (sections 4.2.1 and 5.2 of RFC 9111).
 */
module PolicyMeaning {
  import opened Common
  import opened Text
  import opened CacheControl
  import opened Policy
  import Int64

  // ---------- how a directive is written ----------

  /** A name may be surrounded by white space and followed by an argument. */
  lemma DirectiveNameIs(left: string, name: string, right: string, tail: string)
    requires AllSpaces(left) && AllSpaces(right) && NoOuterSpace(name) && '=' !in name
    ensures DirectiveName(left + name + right) == name
    ensures DirectiveName(left + name + right + ['='] + tail) == name
  {
    var before := left + name + right;
    forall c | c in before ensures c != '=' {
      assert c in left || c in name || c in right;
    }
    CutNothing(before, '=');
    CutAt(before, tail, '=');
    TrimSpacePadded(left, name, right);
  }

  /** An argument is a numeral without a sign, padded with white space and then quotes. */
  lemma DirectiveArgumentIs(before: string, left: string, open: nat, digits: string, close: nat, right: string)
    requires '=' !in before && AllSpaces(left) && AllSpaces(right) && digits != [] && AllDigits(digits)
    ensures DirectiveArgument(before + ['='] + (left + (Repeated('\"', open) + digits + Repeated('\"', close)) + right))
         == ParseInt(digits)
  {
    var quoted := Repeated('\"', open) + digits + Repeated('\"', close);
    assert digits[0] in digits && digits[|digits| - 1] in digits;
    assert quoted[0] == (if open > 0 then '\"' else digits[0]);
    assert quoted[|quoted| - 1] == (if close > 0 then '\"' else digits[|digits| - 1]);
    CutAt(before, left + quoted + right, '=');
    TrimSpacePadded(left, quoted, right);
    TrimCharPadded(open, digits, close, '\"');
  }

  /** Without an argument, and with a negative one, there is no value. */
  lemma NoArgument(part: string, before: string, n: nat)
    requires '=' !in part && '=' !in before && n > 0
    ensures DirectiveArgument(part).None?
    ensures DirectiveArgument(before + ['='] + (['-'] + FormatNat(n))).None?
  {
    CutNothing(part, '=');
    CutAt(before, ['-'] + FormatNat(n), '=');
    NegativeNumeral(n);
  }

  lemma NegativeNumeral(n: nat)
    requires n > 0
    ensures var text := ['-'] + FormatNat(n);
            && TrimChar(TrimSpace(text), '\"') == text
            && (ParseInt(text).Some? ==> ParseInt(text).value < 0)
  {
    FormatFacts(n);
    assert FormatNat(n)[|FormatNat(n)| - 1] in FormatNat(n);
    Untrimmed(['-'] + FormatNat(n));
    ParseSigned(0, n);
    assert Repeated('0', 0) + FormatNat(n) == FormatNat(n);
  }

  lemma Untrimmed(s: string)
    requires s != [] && NoOuterSpace(s) && s[0] != '\"' && s[|s| - 1] != '\"'
    ensures TrimChar(TrimSpace(s), '\"') == s
  {
  }

  // ---------- occurrences ----------

  /** The directives of a header, over all its Cache-Control lines. */
  function DirectivesOf(header: Header): seq<string> {
    Parts(CacheControlValue(header))
  }

  ghost predicate Never(directives: seq<string>, name: string) {
    forall i :: 0 <= i < |directives| ==> DirectiveName(directives[i]) != name
  }

  /** The directive occurs once, with this number of seconds. */
  ghost predicate Given(directives: seq<string>, name: string, seconds: int) {
    exists i ::
      0 <= i < |directives| && OnlyAt(directives, name, i) && DirectiveArgument(directives[i]) == Some(seconds)
  }

  ghost predicate OnlyAt(directives: seq<string>, name: string, i: int) {
    forall j :: 0 <= j < |directives| ==> (DirectiveName(directives[j]) == name <==> j == i)
  }

  lemma NeverNamed(directives: seq<string>, name: string)
    ensures Never(directives, name) <==> Named(directives, name) == []
  {
    NamedIff(directives, name);
  }

  lemma {:induction false} NamedOnce(directives: seq<string>, name: string, i: nat)
    requires i < |directives| && OnlyAt(directives, name, i)
    ensures Named(directives, name) == [directives[i]]
  {
    var n := |directives| - 1;
    var before := directives[..n];
    if i == n {
      assert Never(before, name);
      NeverNamed(before, name);
    } else {
      NamedOnce(before, name, i);
    }
  }

  lemma {:induction false} OnceNamed(directives: seq<string>, name: string) returns (i: nat)
    requires |Named(directives, name)| == 1
    ensures i < |directives| && OnlyAt(directives, name, i) && Named(directives, name) == [directives[i]]
  {
    var n := |directives| - 1;
    var before := directives[..n];
    if DirectiveName(directives[n]) == name {
      i := n;
      NeverNamed(before, name);
      assert forall j :: 0 <= j < n ==> before[j] == directives[j];
    } else {
      i := OnceNamed(before, name);
      assert forall j :: 0 <= j < n ==> before[j] == directives[j];
    }
  }

  /** A directive is absent, or given, or invalid. */
  lemma SecondsMeans(directives: seq<string>, name: string)
    ensures SecondsOf(directives, name).Absent? <==> Never(directives, name)
    ensures forall seconds :: SecondsOf(directives, name) == Valid(seconds) <==> Given(directives, name, seconds)
  {
    NeverNamed(directives, name);
    if |Named(directives, name)| == 1 {
      var i := OnceNamed(directives, name);
    }
    forall seconds | Given(directives, name, seconds) ensures SecondsOf(directives, name) == Valid(seconds) {
      var i :|
        0 <= i < |directives| && OnlyAt(directives, name, i) && DirectiveArgument(directives[i]) == Some(seconds);
      NamedOnce(directives, name, i);
    }
  }

  /** The Age header: zero without one, and otherwise exactly one line, whose number is not
      negative and fits a duration. */
  lemma AgeMeans(header: Header)
    ensures Lines(header, Field.Age) == [] ==> AgeOf(header) == Some(0)
    ensures Lines(header, Field.Age) != [] ==>
              forall age :: AgeOf(header) == Some(age) <==>
                && |Lines(header, Field.Age)| == 1 && ParseInt(TrimSpace(Lines(header, Field.Age)[0])) == Some(age)
                && 0 <= age * Int64.SECOND <= Int64.MAX
  {
    assert forall age :: SecondsFit(age) <==> age * Int64.SECOND <= Int64.MAX;
  }

  // ---------- who is refused ----------

  /** A request may use the cache exactly if it is a GET without credentials, ranges or
      conditions, whose Cache-Control closes its quotes and does not restrict the answer. */
  lemma EligibleIff(r: Request)
    ensures RequestEligible(r).None? <==>
              && r.verb == "GET"
              && (forall f :: f in r.header && r.header[f] != [] ==>
                    f !in {Authorization, Cookie, Range,
                           IfMatch, IfNoneMatch, IfModifiedSince, IfUnmodifiedSince, IfRange})
              && Balanced(CacheControlValue(r.header))
              && (forall name :: name in ["no-cache", "no-store", "max-age", "min-fresh"] ==>
                    Never(DirectivesOf(r.header), name))
              && !PragmaForbids(r.header)
  {
    var d := DirectivesOf(r.header);
    assert forall name :: HasDirective(d, name) <==> !Never(d, name);
    assert ["no-cache", "no-store", "max-age", "min-fresh"][0] == "no-cache";
    assert ["no-cache", "no-store", "max-age", "min-fresh"][1] == "no-store";
    assert ["no-cache", "no-store", "max-age", "min-fresh"][2] == "max-age";
    assert ["no-cache", "no-store", "max-age", "min-fresh"][3] == "min-fresh";
    ContainsIff(ToLower(Join(Lines(r.header, Pragma))), "no-cache");
  }

  /** The word no-cache stands somewhere in the Pragma lines, in any letter case. */
  ghost predicate PragmaForbids(header: Header) {
    var value := ToLower(Join(Lines(header, Pragma)));
    exists i :: 0 <= i <= |value| && "no-cache" <= value[i..]
  }

  /** A response may be stored, as far as its status and header go, exactly if it is a 200
      without Set-Cookie and Vary, whose Cache-Control closes its quotes and does not
      prohibit it. */
  lemma RefusedIff(status: int, header: Header)
    ensures Refusal(status, header).None? <==>
              && status == 200
              && (forall f :: f in header && header[f] != [] ==> f !in {SetCookie, Vary})
              && Balanced(CacheControlValue(header))
              && (forall name :: name in ["no-store", "private", "no-cache"] ==> Never(DirectivesOf(header), name))
  {
    var d := DirectivesOf(header);
    assert forall name :: HasDirective(d, name) <==> !Never(d, name);
    assert ["no-store", "private", "no-cache"][0] == "no-store";
    assert ["no-store", "private", "no-cache"][1] == "private";
    assert ["no-store", "private", "no-cache"][2] == "no-cache";
  }

  /** What is refused is not stored. */
  lemma RefusedIsNotStored(r: Request, status: int, header: Header, defaultTtl: int, untilExpires: Option<int>)
    requires RequestEligible(r).Some? || Refusal(status, header).Some?
    ensures !Evaluate(r, status, header, defaultTtl, untilExpires).cacheable
  {
  }

  /** The reason for refusing a request is the first of these that applies. */
  lemma FirstReasonOfRequest(r: Request)
    ensures RequestEligible(r) == Some(Method) <==> r.verb != "GET"
    ensures RequestEligible(r) == Some(HasAuthorization) <==> r.verb == "GET" && Lines(r.header, Authorization) != []
    ensures RequestEligible(r) == Some(HasCookie) <==>
              r.verb == "GET" && Lines(r.header, Authorization) == [] && Lines(r.header, Cookie) != []
    ensures RequestEligible(r) == Some(HasRange) <==>
              && r.verb == "GET" && Lines(r.header, Authorization) == [] && Lines(r.header, Cookie) == []
              && Lines(r.header, Range) != []
    ensures RequestEligible(r).Some? ==>
              RequestEligible(r).value
              in {Method, HasAuthorization, HasCookie, HasRange, IsConditional, RequestCacheControl}
  {
  }

  /** And likewise for a response. */
  lemma FirstReasonOfResponse(status: int, header: Header)
    ensures Refusal(status, header) == Some(Status) <==> status != 200
    ensures Refusal(status, header) == Some(HasSetCookie) <==> status == 200 && Lines(header, SetCookie) != []
    ensures Refusal(status, header) == Some(HasVary) <==>
              status == 200 && Lines(header, SetCookie) == [] && Lines(header, Vary) != []
    ensures Refusal(status, header) == Some(InvalidCacheControl) <==>
              && status == 200 && Lines(header, SetCookie) == [] && Lines(header, Vary) == []
              && !Balanced(CacheControlValue(header))
  {
  }

  /** The last reason is the first of three directives that occurs. */
  lemma ProhibitedBy(directives: seq<string>)
    ensures Prohibition(directives) == Some(NoStore) <==> !Never(directives, "no-store")
    ensures Prohibition(directives) == Some(Private) <==>
              Never(directives, "no-store") && !Never(directives, "private")
    ensures Prohibition(directives) == Some(NoCache) <==>
              Never(directives, "no-store") && Never(directives, "private") && !Never(directives, "no-cache")
  {
    assert forall name :: HasDirective(directives, name) <==> !Never(directives, name);
  }

  /** The decision passes these on, and otherwise says whether it stores; what is not
      stored gets no time. */
  lemma DecisionReason(r: Request, status: int, header: Header, defaultTtl: int, untilExpires: Option<int>)
    ensures var decision := Evaluate(r, status, header, defaultTtl, untilExpires);
            && (RequestEligible(r).Some? ==> decision.reason == RequestEligible(r).value)
            && (RequestEligible(r).None? && Refusal(status, header).Some? ==>
                  decision.reason == Refusal(status, header).value)
            && (!decision.cacheable ==> decision.ttl == 0)
  {
    if RequestEligible(r).None? && Refusal(status, header).None? {
      NothingRefused(r, status, header, defaultTtl, untilExpires);
    }
  }

  // ---------- which lifetime decides ----------

  /** Stored exactly if the age is valid and below this many seconds, for the difference. */
  predicate LivesFor(decision: Decision, header: Header, seconds: int) {
    && (decision.cacheable <==>
          seconds * Int64.SECOND <= Int64.MAX && AgeOf(header).Some? && AgeOf(header).value < seconds)
    && (decision.cacheable ==> decision.ttl == (seconds - AgeOf(header).value) * Int64.SECOND)
    && (!decision.cacheable ==>
          decision.reason == if seconds * Int64.SECOND > Int64.MAX then InvalidFreshness
                             else if AgeOf(header).None? then InvalidAge
                             else ZeroTtl)
  }

  /** The same in nanoseconds, where the difference does not underflow. */
  predicate LivesForNanos(decision: Decision, header: Header, nanos: int) {
    && (AgeOf(header).None? ==> decision == Decision(false, 0, InvalidAge))
    && (AgeOf(header).Some? && nanos - AgeOf(header).value * Int64.SECOND >= Int64.MIN ==>
          var left := nanos - AgeOf(header).value * Int64.SECOND;
          decision == if left > 0 then Decision(true, left, Cacheable) else Decision(false, 0, ZeroTtl))
  }

  lemma RemainingSeconds(seconds: int, header: Header, defaultTtl: int)
    requires seconds >= 0
    ensures var lifetime := if SecondsFit(seconds) then Explicit(seconds) else Bad(InvalidFreshness);
            LivesFor(Remaining(lifetime, AgeOf(header), defaultTtl), header, seconds)
  {
    ParsedSane(header, None);
    if SecondsFit(seconds) {
      ExplicitLifetime(Explicit(seconds), AgeOf(header), defaultTtl);
    }
  }

  /** s-maxage decides whenever it occurs, whatever max-age and Expires say: given once,
      with its value; otherwise the response is not stored. */
  lemma SharedMaxAgeDecides(r: Request, status: int, header: Header, defaultTtl: int, untilExpires: Option<int>)
    requires RequestEligible(r).None? && Refusal(status, header).None? && !Never(DirectivesOf(header), "s-maxage")
    ensures var decision := Evaluate(r, status, header, defaultTtl, untilExpires);
            && (forall seconds :: Given(DirectivesOf(header), "s-maxage", seconds) ==>
                  LivesFor(decision, header, seconds))
            && ((forall seconds :: !Given(DirectivesOf(header), "s-maxage", seconds)) ==>
                  decision == Decision(false, 0, InvalidFreshness))
  {
    NothingRefused(r, status, header, defaultTtl, untilExpires);
    GivenDecides(header, "s-maxage", defaultTtl);
  }

  /** A directive that occurs is given with a value that is not negative, or invalid. */
  lemma GivenDecides(header: Header, name: string, defaultTtl: int)
    requires !Never(DirectivesOf(header), name)
    ensures var found := SecondsOf(DirectivesOf(header), name);
            var fits := found.Valid? && SecondsFit(found.seconds);
            var lifetime := if fits then Explicit(found.seconds) else Bad(InvalidFreshness);
            var decision := Remaining(lifetime, AgeOf(header), defaultTtl);
            && !found.Absent?
            && (forall seconds :: Given(DirectivesOf(header), name, seconds) ==> LivesFor(decision, header, seconds))
            && ((forall seconds :: !Given(DirectivesOf(header), name, seconds)) ==>
                  decision == Decision(false, 0, InvalidFreshness))
  {
    var d := DirectivesOf(header);
    SecondsMeans(d, name);
    if SecondsOf(d, name).Valid? {
      var seconds := SecondsOf(d, name).seconds;
      assert Given(d, name, seconds) && seconds >= 0;
      RemainingSeconds(seconds, header, defaultTtl);
      assert forall other :: Given(d, name, other) ==> other == seconds;
    } else {
      assert forall other :: !Given(d, name, other);
    }
  }

  /** max-age decides exactly when it occurs and s-maxage does not. */
  lemma MaxAgeDecides(r: Request, status: int, header: Header, defaultTtl: int, untilExpires: Option<int>)
    requires RequestEligible(r).None? && Refusal(status, header).None?
    requires Never(DirectivesOf(header), "s-maxage") && !Never(DirectivesOf(header), "max-age")
    ensures var decision := Evaluate(r, status, header, defaultTtl, untilExpires);
            && (forall seconds :: Given(DirectivesOf(header), "max-age", seconds) ==>
                  LivesFor(decision, header, seconds))
            && ((forall seconds :: !Given(DirectivesOf(header), "max-age", seconds)) ==>
                  decision == Decision(false, 0, InvalidFreshness))
  {
    NothingRefused(r, status, header, defaultTtl, untilExpires);
    SecondsMeans(DirectivesOf(header), "s-maxage");
    GivenDecides(header, "max-age", defaultTtl);
  }

  lemma LifetimeWithoutDirectives(header: Header, untilExpires: Option<int>)
    requires Never(DirectivesOf(header), "s-maxage") && Never(DirectivesOf(header), "max-age")
    ensures LifetimeOf(header, untilExpires)
         == if Lines(header, Field.Expires) == [] then Default
            else if untilExpires.None? then Bad(InvalidExpires)
            else Until(untilExpires.value)
  {
    SecondsMeans(DirectivesOf(header), "s-maxage");
    SecondsMeans(DirectivesOf(header), "max-age");
  }

  /** Expires decides exactly when there is an Expires line and neither directive; a date
      that does not parse prevents storing. */
  lemma ExpiresDecides(r: Request, status: int, header: Header, defaultTtl: int, untilExpires: Option<int>)
    requires RequestEligible(r).None? && Refusal(status, header).None?
    requires Never(DirectivesOf(header), "s-maxage") && Never(DirectivesOf(header), "max-age")
    requires Lines(header, Field.Expires) != [] && (untilExpires.Some? ==> Int64.InRange(untilExpires.value))
    ensures var decision := Evaluate(r, status, header, defaultTtl, untilExpires);
            if untilExpires.None? then decision
                == Decision(false, 0, InvalidExpires) else LivesForNanos(decision, header, untilExpires.value)
  {
    NothingRefused(r, status, header, defaultTtl, untilExpires);
    LifetimeWithoutDirectives(header, untilExpires);
    ParsedSane(header, untilExpires);
    if untilExpires.Some? && AgeOf(header).Some? {
      WrapIdentity(AgeOf(header).value * Int64.SECOND);
      if untilExpires.value - AgeOf(header).value * Int64.SECOND >= Int64.MIN {
        WrapIdentity(untilExpires.value - AgeOf(header).value * Int64.SECOND);
      }
    }
  }

  /** The default decides exactly when there is none of the three. */
  lemma DefaultDecides(r: Request, status: int, header: Header, defaultTtl: int, untilExpires: Option<int>)
    requires RequestEligible(r).None? && Refusal(status, header).None?
    requires Never(DirectivesOf(header), "s-maxage") && Never(DirectivesOf(header), "max-age")
    requires Lines(header, Field.Expires) == [] && 0 < defaultTtl <= Int64.MAX
    ensures LivesForNanos(Evaluate(r, status, header, defaultTtl, untilExpires), header, defaultTtl)
  {
    NothingRefused(r, status, header, defaultTtl, untilExpires);
    LifetimeWithoutDirectives(header, untilExpires);
    ParsedSane(header, untilExpires);
    DefaultLifetime(Default, AgeOf(header), defaultTtl);
  }
}
