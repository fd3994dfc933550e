/** The shared-cache rules of internal/cache/policy.go. */
module Policy {
  import opened Common
  import opened Text
  import opened CacheControl
  import Int64

  datatype Request = Request(verb: string, host: string, uri: string, header: Header)

  datatype Decision = Decision(cacheable: bool, ttl: int, reason: Reason)

  /** All values of a header, by its canonical name. */
  function Lines(header: Header, name: Field): seq<string> {
    if name in header then header[name] else []
  }

  predicate Present(header: Header, name: Field) {
    |Lines(header, name)| > 0
  }

  function First(header: Header, name: Field): string {
    if Present(header, name) then Lines(header, name)[0] else ""
  }

  function CacheControlValue(header: Header): string {
    ToLower(Join(Lines(header, Field.CacheControl)))
  }

  // ---------- directives ----------

  function DirectiveName(part: string): string {
    TrimSpace(Cut(part, '=').0)
  }

  /** The directive's argument as a non-negative number, if it has one. */
  function DirectiveArgument(part: string): Option<int> {
    match Cut(part, '=').1
    case None => None
    case Some(text) =>
      match ParseInt(TrimChar(TrimSpace(text), '\"'))
      case None => None
      case Some(n) => if n < 0 then None else Some(n)
  }

  predicate HasDirective(directives: seq<string>, name: string) {
    exists i :: 0 <= i < |directives| && DirectiveName(directives[i]) == name
  }

  function Named(directives: seq<string>, name: string): seq<string> {
    if directives == [] then []
    else
      var last := directives[|directives| - 1];
      Named(directives[..|directives| - 1], name) + if DirectiveName(last) == name then [last] else []
  }

  datatype Seconds = Absent | Invalid | Valid(seconds: int)

  /** A directive has a value when it occurs exactly once, with a numeric argument. */
  function SecondsOf(directives: seq<string>, name: string): Seconds {
    var found := Named(directives, name);
    if found == [] then Absent
    else if |found| > 1 || DirectiveArgument(found[0]).None? then Invalid
    else Valid(DirectiveArgument(found[0]).value)
  }

  lemma {:induction false} NamedPrefix(directives: seq<string>, i: nat, name: string)
    requires i <= |directives|
    ensures Named(directives[..i], name) <= Named(directives, name)
  {
    if i < |directives| {
      NamedPrefix(directives[..|directives| - 1], i, name);
      assert directives[..|directives| - 1][..i] == directives[..i];
    } else {
      assert directives[..i] == directives;
    }
  }

  lemma NamedStep(directives: seq<string>, i: nat, name: string)
    requires i < |directives|
    ensures Named(directives[..i + 1], name)
         == Named(directives[..i], name) + if DirectiveName(directives[i]) == name then [directives[i]] else []
    ensures Named(directives[..i + 1], name) <= Named(directives, name)
  {
    assert directives[..i + 1][..i] == directives[..i];
    NamedPrefix(directives, i + 1, name);
  }

  lemma NamedFound(directives: seq<string>, i: nat, name: string)
    requires i < |directives| && DirectiveName(directives[i]) == name
    ensures Named(directives, name) != []
  {
    NamedStep(directives, i, name);
  }

  lemma {:induction false} NamedOccurs(directives: seq<string>, name: string) returns (i: nat)
    requires Named(directives, name) != []
    ensures i < |directives| && DirectiveName(directives[i]) == name
  {
    i := |directives| - 1;
    if DirectiveName(directives[i]) != name {
      i := NamedOccurs(directives[..i], name);
    }
  }

  lemma NamedIff(directives: seq<string>, name: string)
    ensures HasDirective(directives, name) <==> Named(directives, name) != []
  {
    if HasDirective(directives, name) {
      var i :| 0 <= i < |directives| && DirectiveName(directives[i]) == name;
      NamedFound(directives, i, name);
    }
    if Named(directives, name) != [] {
      var i := NamedOccurs(directives, name);
    }
  }

  method DirectiveSeconds(directives: seq<string>, name: string) returns (seconds: int, present: bool, valid: bool)
    ensures present <==> HasDirective(directives, name)
    ensures valid <==> SecondsOf(directives, name).Valid?
    ensures seconds == if valid then SecondsOf(directives, name).seconds else 0
  {
    NamedIff(directives, name);
    var found, index := false, 0;
    seconds := 0;
    while index < |directives|
      invariant 0 <= index <= |directives|
      invariant |Named(directives[..index], name)| == if found then 1 else 0
      invariant found ==> DirectiveArgument(Named(directives[..index], name)[0]) == Some(seconds)
      invariant !found ==> seconds == 0
    {
      var part := directives[index];
      NamedStep(directives, index, name);
      index := index + 1;
      if DirectiveName(part) != name {
        continue;
      }
      if found {
        return 0, true, false;
      }
      found := true;
      var argument := DirectiveArgument(part);
      if argument.None? {
        return 0, true, false;
      }
      seconds := argument.value;
    }
    assert directives[..index] == directives;
    return seconds, found, found;
  }

  // ---------- eligibility ----------

  predicate Conditional(header: Header) {
    || Present(header, IfMatch)
    || Present(header, IfNoneMatch)
    || Present(header, IfModifiedSince)
    || Present(header, IfUnmodifiedSince)
    || Present(header, IfRange)
  }

  datatype Reason =
    | Cacheable | Method | HasAuthorization | HasCookie | HasRange | IsConditional | RequestCacheControl
    | Status | HasSetCookie | HasVary | InvalidCacheControl | NoStore | Private | NoCache
    | InvalidFreshness | InvalidExpires | InvalidAge | ZeroTtl

  function RequestEligible(r: Request): Option<Reason> {
    if r.verb != "GET" then Some(Method)
    else if Present(r.header, Authorization) then Some(HasAuthorization)
    else if Present(r.header, Cookie) then Some(HasCookie)
    else if Present(r.header, Range) then Some(HasRange)
    else if Conditional(r.header) then Some(IsConditional)
    else
      var value := CacheControlValue(r.header);
      var directives := Parts(value);
      if || !Balanced(value)
         || HasDirective(directives, "no-cache") || HasDirective(directives, "no-store")
         || HasDirective(directives, "max-age") || HasDirective(directives, "min-fresh")
         || Contains(ToLower(Join(Lines(r.header, Pragma))), "no-cache")
      then Some(RequestCacheControl)
      else None
  }

  /** durationSecondsValid: whether the number of seconds fits a 64-bit duration. */
  predicate SecondsFit(seconds: int) {
    seconds <= Int64.MAX / Int64.SECOND
  }

  /** The response checks that precede any freshness arithmetic; None when they all pass. */
  function Refusal(status: int, header: Header): Option<Reason> {
    var value := CacheControlValue(header);
    if status != 200 then Some(Status)
    else if Present(header, SetCookie) then Some(HasSetCookie)
    else if Present(header, Vary) then Some(HasVary)
    else if !Balanced(value) then Some(InvalidCacheControl)
    else Prohibition(Parts(value))
  }

  function Prohibition(directives: seq<string>): Option<Reason> {
    if HasDirective(directives, "no-store") then Some(NoStore)
    else if HasDirective(directives, "private") then Some(Private)
    else if HasDirective(directives, "no-cache") then Some(NoCache)
    else None
  }

  datatype Lifetime = Explicit(seconds: int) | Until(nanos: int) | Default | Bad(reason: Reason)

  /** Where the freshness lifetime comes from.  untilExpires is time.Until of the
      parsed Expires header, and None when it does not parse. */
  function LifetimeOf(header: Header, untilExpires: Option<int>): Lifetime {
    var directives := Parts(CacheControlValue(header));
    match SecondsOf(directives, "s-maxage")
    case Invalid => Bad(InvalidFreshness)
    case Valid(seconds) => if SecondsFit(seconds) then Explicit(seconds) else Bad(InvalidFreshness)
    case Absent =>
      match SecondsOf(directives, "max-age")
      case Invalid => Bad(InvalidFreshness)
      case Valid(seconds) => if SecondsFit(seconds) then Explicit(seconds) else Bad(InvalidFreshness)
      case Absent =>
        if !Present(header, Expires) then Default
        else if untilExpires.None? then Bad(InvalidExpires)
        else Until(untilExpires.value)
  }

  /** The Age header in seconds: zero when absent, None when it must be refused. */
  function AgeOf(header: Header): Option<int> {
    if !Present(header, Age) then Some(0)
    else if |Lines(header, Age)| != 1 then None
    else
      match ParseInt(TrimSpace(First(header, Age)))
      case None => None
      case Some(age) => if age < 0 || !SecondsFit(age) then None else Some(age)
  }

  /** The lifetime minus the age, in wrapping 64-bit arithmetic. */
  function Remaining(lifetime: Lifetime, age: Option<int>, defaultTtl: int): Decision {
    if lifetime.Bad? then Decision(false, 0, lifetime.reason)
    else if age.None? then Decision(false, 0, InvalidAge)
    else
      var base := match lifetime
        case Explicit(seconds) => Int64.Wrap(seconds * Int64.SECOND)
        case Until(nanos) => nanos
        case _ => defaultTtl;
      var ttl := Int64.Wrap(base - Int64.Wrap(age.value * Int64.SECOND));
      if ttl <= 0 then Decision(false, 0, ZeroTtl) else Decision(true, ttl, Cacheable)
  }

  function Evaluate(r: Request, status: int, header: Header, defaultTtl: int, untilExpires: Option<int>): Decision {
    match RequestEligible(r)
    case Some(reason) => Decision(false, 0, reason)
    case None =>
      match Refusal(status, header)
      case Some(reason) => Decision(false, 0, reason)
      case None => Remaining(LifetimeOf(header, untilExpires), AgeOf(header), defaultTtl)
  }

  lemma NothingRefused(r: Request, status: int, header: Header, defaultTtl: int, untilExpires: Option<int>)
    requires RequestEligible(r).None? && Refusal(status, header).None?
    ensures Evaluate(r, status, header, defaultTtl, untilExpires)
         == Remaining(LifetimeOf(header, untilExpires), AgeOf(header), defaultTtl)
  {
  }

  // ---------- freshness arithmetic ----------

  /** What SecondsOf and AgeOf guarantee about the numbers they deliver. */
  ghost predicate Sane(lifetime: Lifetime, age: Option<int>) {
    && (lifetime.Explicit? ==> 0 <= lifetime.seconds && SecondsFit(lifetime.seconds))
    && (age.Some? ==> 0 <= age.value && SecondsFit(age.value))
  }

  lemma ParsedSane(header: Header, untilExpires: Option<int>)
    ensures Sane(LifetimeOf(header, untilExpires), AgeOf(header))
  {
  }

  lemma WrapIdentity(x: int)
    requires Int64.InRange(x)
    ensures Int64.Wrap(x) == x
  {
  }

  /** With s-maxage or max-age no duration ever overflows: a response is stored
      exactly when its age is below the lifetime, for the time that remains. */
  lemma ExplicitLifetime(lifetime: Lifetime, age: Option<int>, defaultTtl: int)
    requires Sane(lifetime, age) && lifetime.Explicit?
    ensures var decision := Remaining(lifetime, age, defaultTtl);
            && (decision.cacheable <==> age.Some? && age.value < lifetime.seconds)
            && (decision.cacheable ==>
                  decision.ttl == (lifetime.seconds - age.value) * Int64.SECOND && 0 < decision.ttl <= Int64.MAX)
  {
    WrapIdentity(lifetime.seconds * Int64.SECOND);
    if age.Some? {
      WrapIdentity(age.value * Int64.SECOND);
      WrapIdentity(lifetime.seconds * Int64.SECOND - age.value * Int64.SECOND);
    }
  }

  /** The fallback lifetime never overflows either. */
  lemma DefaultLifetime(lifetime: Lifetime, age: Option<int>, defaultTtl: int)
    requires Sane(lifetime, age) && lifetime.Default? && 0 < defaultTtl <= Int64.MAX
    ensures var decision := Remaining(lifetime, age, defaultTtl);
            && (decision.cacheable <==> age.Some? && age.value * Int64.SECOND < defaultTtl)
            && (decision.cacheable ==> decision.ttl == defaultTtl - age.value * Int64.SECOND)
  {
    if age.Some? {
      WrapIdentity(age.value * Int64.SECOND);
      WrapIdentity(defaultTtl - age.value * Int64.SECOND);
    }
  }

  /** With Expires, an already stale response is kept out exactly when subtracting
      the age does not pass the smallest 64-bit duration. */
  lemma ExpiresLifetime(lifetime: Lifetime, age: Option<int>, defaultTtl: int)
    requires Sane(lifetime, age) && lifetime.Until? && Int64.InRange(lifetime.nanos) && age.Some?
    ensures var decision, left := Remaining(lifetime, age, defaultTtl), lifetime.nanos - age.value * Int64.SECOND;
            (decision.cacheable ==> decision.ttl == left > 0) <==> left >= Int64.MIN
  {
    WrapIdentity(age.value * Int64.SECOND);
    var left := lifetime.nanos - age.value * Int64.SECOND;
    if left >= Int64.MIN {
      WrapIdentity(left);
    } else {
      assert Int64.Wrap(left) == left + 0x1_0000_0000_0000_0000;
    }
  }

  // ---------- prohibitions in any header line ----------

  lemma {:induction false} PartInAll(lines: seq<string>, i: nat, part: string)
    requires i < |lines| && part in Parts(lines[i])
    ensures part in PartsOfAll(lines)
  {
    if i > 0 {
      assert lines[i] == lines[1..][i - 1];
      PartInAll(lines[1..], i - 1, part);
    }
  }

  /** A directive of any line, in any letter case, is a directive of the folded
      value, provided every line closes its quotes. */
  lemma DirectiveInAnyLine(header: Header, i: nat, part: string)
    requires i < |Lines(header, Field.CacheControl)| && part in Parts(Lines(header, Field.CacheControl)[i])
    requires forall j :: 0 <= j < |Lines(header, Field.CacheControl)| ==> Balanced(Lines(header, Field.CacheControl)[j])
    ensures HasDirective(Parts(CacheControlValue(header)), DirectiveName(ToLower(part)))
  {
    var lines := Lines(header, Field.CacheControl);
    var joined := Join(lines);
    FoldLines(lines);
    PartInAll(lines, i, part);
    LowerParts(joined);
    var k :| 0 <= k < |Parts(joined)| && Parts(joined)[k] == part;
    assert Parts(CacheControlValue(header))[k] == ToLower(part);
  }

  /** A prohibiting directive in any Cache-Control line keeps the response out. */
  lemma ProhibitedInAnyLine(r: Request, status: int, header: Header, defaultTtl: int, untilExpires: Option<int>,
                            i: nat, part: string)
    requires i < |Lines(header, Field.CacheControl)| && part in Parts(Lines(header, Field.CacheControl)[i])
    requires forall j :: 0 <= j < |Lines(header, Field.CacheControl)| ==> Balanced(Lines(header, Field.CacheControl)[j])
    requires DirectiveName(ToLower(part)) in ["no-store", "private", "no-cache"]
    ensures !Evaluate(r, status, header, defaultTtl, untilExpires).cacheable
  {
    DirectiveInAnyLine(header, i, part);
    assert Prohibition(Parts(CacheControlValue(header))).Some?;
    assert Refusal(status, header).Some?;
  }

  predicate Free(s: string, c: char) {
    forall i :: 0 <= i < |s| ==> s[i] != c
  }

  /** The quotes matter: a line that leaves a quoted string open swallows the
      directives of the next line, whatever they are. */
  lemma OpenQuoteHides(directive: string, defaultTtl: int)
    requires Free(directive, '\"') && Free(directive, '\\') && Free(directive, ',')
    requires 0 < defaultTtl <= Int64.MAX
    ensures directive in Parts(directive + ",\"")
    ensures Evaluate(Request("GET", "h", "/", map[]), 200, map[Field.CacheControl := ["\"", directive + ",\""]],
                     defaultTtl, None)
         == Decision(true, defaultTtl, Cacheable)
  {
    LoneDirective(directive);
    OpenQuoteFolds(directive);
    var header: Header := map[Field.CacheControl := ["\"", directive + ",\""]];
    QuotedNotRefused(header);
    QuotedDefault(header);
    EmptyRequestEligible();
    DefaultLifetime(Default, Some(0), defaultTtl);
  }

  lemma OpenQuoteFolds(directive: string)
    requires Free(directive, '\"') && Free(directive, '\\')
    ensures var value := CacheControlValue(map[Field.CacheControl := ["\"", directive + ",\""]]);
            Balanced(value) && Parts(value) == [value] && value != [] && value[0] == '\"'
  {
    var lines := ["\"", directive + ",\""];
    var joined := Join(lines);
    assert joined == "\"" + "," + Join(lines[1..]) && lines[1..] == [directive + ",\""];
    assert joined == "\"" + ("," + directive + ",") + "\"";
    QuotedWhole("," + directive + ",");
    LowerParts(joined);
  }

  lemma QuotedNotRefused(header: Header)
    requires header.Keys == {Field.CacheControl}
    requires var value := CacheControlValue(header);
             Balanced(value) && Parts(value) == [value] && value != [] && value[0] == '\"'
    ensures Refusal(200, header).None?
  {
    QuotedNames(CacheControlValue(header));
  }

  lemma QuotedDefault(header: Header)
    requires header.Keys == {Field.CacheControl}
    requires var value := CacheControlValue(header); Parts(value) == [value] && value != [] && value[0] == '\"'
    ensures LifetimeOf(header, None) == Default && AgeOf(header) == Some(0)
  {
    QuotedNames(CacheControlValue(header));
  }

  lemma EmptyRequestEligible()
    ensures RequestEligible(Request("GET", "h", "/", map[])).None?
  {
    assert ToLower("") == "";
    assert CacheControlValue(map[]) == "";
    assert Parts("") == [""];
  }

  lemma LoneDirective(directive: string)
    requires Free(directive, '\"') && Free(directive, ',')
    ensures directive in Parts(directive + ",\"")
  {
    UnquotedStaysPlain(directive);
    CommaConcat(directive, "\"");
    assert directive + "," + "\"" == directive + ",\"";
    OnePiece(directive);
  }

  /** A value that is one quoted string is a single piece. */
  lemma QuotedWhole(s: string)
    requires Free(s, '\"') && Free(s, '\\')
    ensures var whole := "\"" + s + "\""; Balanced(whole) && Parts(whole) == [whole]
  {
    var whole := "\"" + s + "\"";
    assert "\""[..0] == "";
    assert whole == "\"" + (s + "\"");
    ScanConcat(Plain, "\"", s + "\"");
    ScanConcat(Quoted, s, "\"");
    QuotedRun(s);
    forall i | 0 <= i < |whole| && whole[i] == ',' ensures ScanFrom(Plain, whole[..i]) != Plain {
      assert whole[..i] == "\"" + s[..i - 1];
      ScanConcat(Plain, "\"", s[..i - 1]);
      QuotedRun(s[..i - 1]);
    }
    OnePiece(whole);
  }

  /** A single piece that starts with a quote names none of the known directives. */
  lemma QuotedNames(value: string)
    requires value != [] && value[0] == '\"'
    ensures Prohibition([value]).None?
    ensures SecondsOf([value], "s-maxage").Absent? && SecondsOf([value], "max-age").Absent?
  {
    TrimRightKeepsFirst(Cut(value, '=').0);
    assert DirectiveName(value)[0] == '\"';
    NamedIff([value], "s-maxage");
    NamedIff([value], "max-age");
  }

  lemma {:induction false} TrimRightKeepsFirst(s: string)
    requires s != [] && !IsSpace(s[0])
    ensures TrimRight(s) != [] && TrimRight(s)[0] == s[0]
  {
    if IsSpace(s[|s| - 1]) {
      TrimRightKeepsFirst(s[..|s| - 1]);
    }
  }

  lemma {:induction false} QuotedRun(s: string)
    requires Free(s, '\"') && Free(s, '\\')
    ensures ScanFrom(Quoted, s) == Quoted
  {
    if s != [] {
      QuotedRun(s[..|s| - 1]);
    }
  }
}
