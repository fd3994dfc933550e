/**
 The quote-aware directive splitter of internal/cache/policy.go: commas cut the
 value only outside quoted strings, and a backslash inside quotes protects the
 next byte (sections 5.3 and 5.6.4 of RFC 9110).
 */
module CacheControl {
  import opened Text

  datatype Scan = Plain | Quoted | Escaped

  function Step(q: Scan, c: char): Scan {
    match q
    case Escaped => Quoted
    case Quoted => if c == '\\' then Escaped else if c == '\"' then Plain else Quoted
    case Plain => if c == '\"' then Quoted else Plain
  }

  function ScanFrom(q: Scan, s: string): Scan {
    if s == [] then q else Step(ScanFrom(q, s[..|s| - 1]), s[|s| - 1])
  }

  predicate Balanced(s: string) {
    ScanFrom(Plain, s) == Plain
  }

  /** The pieces of s, scanning from state q. */
  function PartsFrom(q: Scan, s: string): (parts: seq<string>)
    ensures parts != []
  {
    if s == [] then [""]
    else
      var before, c := PartsFrom(q, s[..|s| - 1]), s[|s| - 1];
      if c == ',' && ScanFrom(q, s[..|s| - 1]) == Plain then before + [""]
      else Glue(before, [[c]])
  }

  function Parts(s: string): (parts: seq<string>)
    ensures parts != []
  {
    PartsFrom(Plain, s)
  }

  /** Concatenate, merging the last piece of the left with the first of the right. */
  function Glue(left: seq<string>, right: seq<string>): (r: seq<string>)
    requires left != [] && right != []
    ensures |r| == |left| + |right| - 1
  {
    left[..|left| - 1] + [left[|left| - 1] + right[0]] + right[1..]
  }

  // ---------- the loop ----------

  method SplitCacheControl(value: string) returns (parts: seq<string>, valid: bool)
    ensures valid <==> Balanced(value)
    ensures parts == if valid then Parts(value) else []
  {
    parts := [];
    var start, inQuotes, escaped, index := 0, false, false, 0;
    while index < |value|
      invariant 0 <= start <= index <= |value|
      invariant ScanFrom(Plain, value[..index]) == if escaped then Escaped else if inQuotes then Quoted else Plain
      invariant escaped ==> inQuotes
      invariant parts + [value[start..index]] == Parts(value[..index])
    {
      var character := value[index];
      ghost var before := value[..index];
      assert value[..index + 1][..index] == before;
      ghost var piece := value[start..index];
      index := index + 1;
      assert value[start..index] == piece + [character];
      assert parts + [piece + [character]] == Glue(parts + [piece], [[character]]);
      if escaped {
        escaped := false;
        continue;
      }
      if inQuotes && character == '\\' {
        escaped := true;
        continue;
      }
      if character == '\"' {
        inQuotes := !inQuotes;
        continue;
      }
      if character == ',' && !inQuotes {
        parts := parts + [value[start..index - 1]];
        start := index;
        assert value[start..index] == "";
      }
    }
    assert value[..index] == value;
    if inQuotes || escaped {
      return [], false;
    }
    return parts + [value[start..]], true;
  }

  // ---------- concatenation ----------

  lemma {:induction false} ScanConcat(q: Scan, s: string, t: string)
    ensures ScanFrom(q, s + t) == ScanFrom(ScanFrom(q, s), t)
  {
    if t == [] {
      assert s + t == s;
    } else {
      assert (s + t)[..|s + t| - 1] == s + t[..|t| - 1];
      ScanConcat(q, s, t[..|t| - 1]);
    }
  }

  lemma GlueFacts(a: seq<string>, b: seq<string>, c: string)
    requires a != [] && b != []
    ensures Glue(a, Glue(b, [c])) == Glue(Glue(a, b), [c])
    ensures Glue(a, b + [c]) == Glue(a, b) + [c]
  {
    var x, y := a[|a| - 1], b[|b| - 1];
    if |b| == 1 {
      assert x + (y + c) == (x + y) + c;
    }
  }

  lemma GlueEmpty(left: seq<string>, right: seq<string>)
    requires left != [] && right != []
    ensures Glue(left, [""] + right) == left + right
    ensures Glue(["", ""], right) == [""] + right
  {
    assert "" + right[0] == right[0] && left[|left| - 1] + "" == left[|left| - 1];
  }

  lemma {:induction false} PartsConcat(q: Scan, s: string, t: string)
    ensures PartsFrom(q, s + t) == Glue(PartsFrom(q, s), PartsFrom(ScanFrom(q, s), t))
  {
    var left, p := PartsFrom(q, s), ScanFrom(q, s);
    if t == [] {
      assert s + t == s;
      assert left[|left| - 1] + "" == left[|left| - 1];
    } else {
      var before, c := t[..|t| - 1], t[|t| - 1];
      assert (s + t)[..|s + t| - 1] == s + before;
      PartsConcat(q, s, before);
      ScanConcat(q, s, before);
      GlueFacts(left, PartsFrom(p, before), if c == ',' && ScanFrom(p, before) == Plain then "" else [c]);
    }
  }

  /** Folding two header lines with a comma splits into the pieces of both exactly
      when the first line leaves no quoted string open. */
  lemma CommaConcat(s: string, t: string)
    ensures Parts(s + "," + t) == Parts(s) + Parts(t) <==> Balanced(s)
    ensures Balanced(s) ==> (Balanced(s + "," + t) <==> Balanced(t))
  {
    if Balanced(s) {
      BalancedConcat(s, t);
    } else {
      UnbalancedDiffers(s, t, Parts(t));
    }
  }

  lemma BalancedConcat(s: string, t: string)
    requires Balanced(s)
    ensures Parts(s + "," + t) == Parts(s) + Parts(t)
    ensures Balanced(s + "," + t) <==> Balanced(t)
  {
    assert s + "," + t == s + ("," + t);
    PartsConcat(Plain, s, "," + t);
    ScanConcat(Plain, s, "," + t);
    CommaFirst(t);
    GlueEmpty(Parts(s), Parts(t));
  }

  lemma CommaFirst(t: string)
    ensures Parts("," + t) == [""] + Parts(t)
    ensures ScanFrom(Plain, "," + t) == ScanFrom(Plain, t)
  {
    PartsConcat(Plain, ",", t);
    ScanConcat(Plain, ",", t);
    assert ","[..0] == "";
    assert PartsFrom(Plain, ",") == ["", ""];
    GlueEmpty([""], Parts(t));
  }

  lemma UnbalancedDiffers(s: string, t: string, others: seq<string>)
    requires !Balanced(s)
    ensures Parts(s + "," + t) != Parts(s) + others
  {
    var q, n := ScanFrom(Plain, s), |Parts(s)|;
    assert s + "," + t == s + ("," + t);
    PartsConcat(Plain, s, "," + t);
    PartsConcat(q, ",", t);
    assert ","[..0] == "";
    assert PartsFrom(q, ",") == Glue([""], [","]) == ["" + ","];
    assert |Parts(s + "," + t)[n - 1]| > |Parts(s)[n - 1]|;
    assert (Parts(s) + others)[n - 1] == Parts(s)[n - 1];
  }

  // ---------- splitting inverts joining ----------

  lemma {:induction false} JoinGlue(left: seq<string>, right: seq<string>)
    requires left != [] && right != []
    ensures Join(Glue(left, right)) == Join(left) + Join(right)
  {
    if |left| == 1 {
      assert Glue(left, right) == [left[0] + right[0]] + right[1..];
      if |right| > 1 {
        assert Glue(left, right)[1..] == right[1..];
      }
    } else {
      assert Glue(left, right)[1..] == Glue(left[1..], right);
      JoinGlue(left[1..], right);
    }
  }

  lemma JoinEmptyPiece(parts: seq<string>)
    requires parts != []
    ensures Join(parts + [""]) == Join(parts) + ","
  {
    assert parts[|parts| - 1] + "" == parts[|parts| - 1];
    assert parts + [""] == Glue(parts, ["", ""]);
    JoinGlue(parts, ["", ""]);
  }

  /** Joining the pieces with commas restores the value. */
  lemma {:induction false} JoinParts(q: Scan, s: string)
    ensures Join(PartsFrom(q, s)) == s
  {
    if s != [] {
      var before, c := s[..|s| - 1], s[|s| - 1];
      JoinParts(q, before);
      JoinGlue(PartsFrom(q, before), [[c]]);
      JoinEmptyPiece(PartsFrom(q, before));
    }
  }

  /** No comma of s stands outside a quoted string. */
  ghost predicate NoBareComma(s: string) {
    forall i :: 0 <= i < |s| && s[i] == ',' ==> ScanFrom(Plain, s[..i]) != Plain
  }

  lemma NoBareCommaStep(s: string, c: char)
    requires NoBareComma(s) && (c == ',' ==> ScanFrom(Plain, s) != Plain)
    ensures NoBareComma(s + [c])
    ensures ScanFrom(Plain, s + [c]) == Step(ScanFrom(Plain, s), c)
  {
    var t := s + [c];
    assert t[..|s|] == s;
    forall i | 0 <= i < |t| && t[i] == ',' ensures ScanFrom(Plain, t[..i]) != Plain {
      assert t[..i] == s[..i];
    }
  }

  /** Every piece is free of bare commas, every piece but the last closes its quotes,
      and the last one ends in state q. */
  ghost predicate Clean(parts: seq<string>, q: Scan) {
    && parts != []
    && (forall i :: 0 <= i < |parts| ==> NoBareComma(parts[i]))
    && (forall i :: 0 <= i < |parts| - 1 ==> Balanced(parts[i]))
    && ScanFrom(Plain, parts[|parts| - 1]) == q
  }

  lemma CleanCut(parts: seq<string>)
    requires Clean(parts, Plain)
    ensures Clean(parts + [""], Plain)
  {
  }

  lemma CleanMore(parts: seq<string>, q: Scan, c: char)
    requires Clean(parts, q) && (c == ',' ==> q != Plain)
    ensures Clean(Glue(parts, [[c]]), Step(q, c))
  {
    NoBareCommaStep(parts[|parts| - 1], c);
  }

  /** Cuts fall exactly at the bare commas. */
  lemma {:induction false} PiecesAreClean(s: string)
    ensures Clean(Parts(s), ScanFrom(Plain, s))
  {
    if s != [] {
      var before, c := s[..|s| - 1], s[|s| - 1];
      PiecesAreClean(before);
      if c == ',' && ScanFrom(Plain, before) == Plain {
        CleanCut(Parts(before));
      } else {
        CleanMore(Parts(before), ScanFrom(Plain, before), c);
      }
    }
  }

  lemma {:induction false} OnePiece(s: string)
    requires NoBareComma(s)
    ensures Parts(s) == [s]
  {
    if s != [] {
      var before := s[..|s| - 1];
      assert forall i :: 0 <= i < |before| ==> before[..i] == s[..i];
      OnePiece(before);
      assert s == before + [s[|s| - 1]];
    }
  }

  /** Splitting a join of quote-balanced pieces without bare commas returns them. */
  lemma {:induction false} SplitJoin(parts: seq<string>)
    requires parts != []
    requires forall i :: 0 <= i < |parts| ==> NoBareComma(parts[i]) && Balanced(parts[i])
    ensures Parts(Join(parts)) == parts && Balanced(Join(parts))
  {
    OnePiece(parts[0]);
    if |parts| > 1 {
      SplitJoin(parts[1..]);
      CommaConcat(parts[0], Join(parts[1..]));
      assert parts == [parts[0]] + parts[1..];
    }
  }

  /** A valid value has exactly one reading as a comma-joined list of clean pieces. */
  lemma UniqueReading(s: string, parts: seq<string>)
    requires Balanced(s) && parts != []
    ensures parts == Parts(s) <==>
              Join(parts) == s && forall i :: 0 <= i < |parts| ==> NoBareComma(parts[i]) && Balanced(parts[i])
  {
    if parts == Parts(s) {
      JoinParts(Plain, s);
      PiecesAreClean(s);
    } else if Join(parts) == s && forall i :: 0 <= i < |parts| ==> NoBareComma(parts[i]) && Balanced(parts[i]) {
      SplitJoin(parts);
    }
  }

  // ---------- several header lines ----------

  function PartsOfAll(lines: seq<string>): seq<string> {
    if lines == [] then [] else Parts(lines[0]) + PartsOfAll(lines[1..])
  }

  /** Folding header lines before splitting is the same as splitting each line,
      exactly when every line but the last closes the quotes it opens. */
  lemma {:induction false} FoldLines(lines: seq<string>)
    requires lines != []
    ensures Parts(Join(lines)) == PartsOfAll(lines) <==> forall i :: 0 <= i < |lines| - 1 ==> Balanced(lines[i])
    ensures (forall i :: 0 <= i < |lines| - 1 ==> Balanced(lines[i])) ==>
              (Balanced(Join(lines)) <==> Balanced(lines[|lines| - 1]))
  {
    if |lines| == 1 {
      assert PartsOfAll(lines[1..]) == [];
    } else {
      var first, rest := lines[0], lines[1..];
      FoldLines(rest);
      CommaConcat(first, Join(rest));
      if Balanced(first) {
        assert (forall i :: 0 <= i < |lines| - 1 ==> Balanced(lines[i])) <==>
               (forall i :: 0 <= i < |rest| - 1 ==> Balanced(rest[i])) by {
          assert forall i :: 0 < i < |lines| ==> lines[i] == rest[i - 1];
          assert forall i :: 0 <= i < |rest| ==> rest[i] == lines[i + 1];
        }
        if Parts(Join(lines)) == PartsOfAll(lines) {
          assert Parts(Join(rest)) == Parts(Join(lines))[|Parts(first)|..] == PartsOfAll(rest);
        }
      } else {
        UnbalancedDiffers(first, Join(rest), PartsOfAll(rest));
      }
    }
  }

  // ---------- case folding ----------

  function LowerAll(parts: seq<string>): (r: seq<string>)
    ensures |r| == |parts|
    ensures forall i :: 0 <= i < |r| ==> r[i] == ToLower(parts[i])
  {
    seq(|parts|, i requires 0 <= i < |parts| => ToLower(parts[i]))
  }

  /** Lower-casing the value first does not move any cut. */
  lemma {:induction false} LowerParts(s: string)
    ensures ScanFrom(Plain, ToLower(s)) == ScanFrom(Plain, s)
    ensures Parts(ToLower(s)) == LowerAll(Parts(s))
  {
    if s != [] {
      var before, c := s[..|s| - 1], s[|s| - 1];
      LowerParts(before);
      assert ToLower(s)[..|s| - 1] == ToLower(before);
      var left := Parts(before);
      assert ToLower(left[|left| - 1] + [c]) == ToLower(left[|left| - 1]) + [LowerChar(c)];
      assert LowerAll(Glue(left, [[c]])) == Glue(LowerAll(left), [[LowerChar(c)]]);
      assert LowerAll(left + [""]) == LowerAll(left) + [""];
    }
  }

  // ---------- quoted strings ----------

  /** One element of a quoted string: a character, or a backslash and any character. */
  datatype Unit = Bare(c: char) | Pair(c: char)

  predicate QuotedText(units: seq<Unit>) {
    forall u :: u in units && u.Bare? ==> u.c != '\"' && u.c != '\\'
  }

  function Spelled(units: seq<Unit>): string {
    if units == [] then ""
    else
      var last := units[|units| - 1];
      Spelled(units[..|units| - 1]) + if last.Bare? then [last.c] else ['\\', last.c]
  }

  lemma {:induction false} SpelledStaysQuoted(units: seq<Unit>)
    requires QuotedText(units)
    ensures ScanFrom(Quoted, Spelled(units)) == Quoted
  {
    if units != [] {
      var before, last := units[..|units| - 1], units[|units| - 1];
      SpelledStaysQuoted(before);
      ScanConcat(Quoted, Spelled(before), if last.Bare? then [last.c] else ['\\', last.c]);
      assert ['\\', last.c][..1] == ['\\'] && ['\\'][..0] == [] && [last.c][..0] == [];
      assert last in units;
    }
  }

  /** A quoted string (section 5.6.4 of RFC 9110), whatever commas, quotes and backslashes
      it spells, closes exactly at its final quote, and not if that quote is missing or
      protected. */
  lemma QuotedStringCloses(units: seq<Unit>)
    requires QuotedText(units)
    ensures Balanced("\"" + Spelled(units) + "\"")
    ensures !Balanced("\"" + Spelled(units)) && !Balanced("\"" + Spelled(units) + "\\\"")
  {
    var open := "\"" + Spelled(units);
    assert "\""[..0] == "" && "\\\""[..1] == "\\" && "\\"[..0] == "";
    SpelledStaysQuoted(units);
    ScanConcat(Plain, "\"", Spelled(units));
    ScanConcat(Plain, open, "\"");
    ScanConcat(Plain, open, "\\\"");
  }

  /** Outside quotes nothing but a quote matters, not even a backslash. */
  lemma {:induction false} UnquotedStaysPlain(s: string)
    requires '\"' !in s
    ensures ScanFrom(Plain, s) == Plain
  {
    if s != [] {
      UnquotedStaysPlain(s[..|s| - 1]);
    }
  }

  /** So a directive whose argument is a quoted string is cut at the comma after it. */
  lemma QuotedArgument(name: string, units: seq<Unit>, rest: string)
    requires '\"' !in name && ',' !in name && QuotedText(units)
    ensures var part := name + "\"" + Spelled(units) + "\""; Parts(part + "," + rest) == [part] + Parts(rest)
  {
    var quoted := "\"" + Spelled(units) + "\"";
    var part := name + quoted;
    assert name + "\"" + Spelled(units) + "\"" == part;
    QuotedStringCloses(units);
    UnquotedStaysPlain(name);
    ScanConcat(Plain, name, quoted);
    QuotedArgumentIsOnePart(name, units);
    CommaConcat(part, rest);
  }

  lemma {:induction false} QuotedIsOnePart(units: seq<Unit>)
    requires QuotedText(units)
    ensures PartsFrom(Quoted, Spelled(units)) == [Spelled(units)]
  {
    if units != [] {
      var before, last := units[..|units| - 1], units[|units| - 1];
      var more := if last.Bare? then [last.c] else ['\\', last.c];
      QuotedIsOnePart(before);
      SpelledStaysQuoted(before);
      PartsConcat(Quoted, Spelled(before), more);
      assert ['\\', last.c][..1] == ['\\'] && ['\\'][..0] == [] && [last.c][..0] == [];
      OneUnit(more);
    }
  }

  lemma OneUnit(more: string)
    requires |more| == 1 || (|more| == 2 && more[0] == '\\')
    ensures PartsFrom(Quoted, more) == [more]
  {
    assert more[..|more| - 1] + [more[|more| - 1]] == more;
    if |more| == 1 {
      assert more[..0] == "";
    } else {
      assert more[..1] == ['\\'] && ['\\'][..0] == "";
    }
  }

  lemma QuotedArgumentIsOnePart(name: string, units: seq<Unit>)
    requires '\"' !in name && ',' !in name && QuotedText(units)
    ensures Parts(name + ("\"" + Spelled(units) + "\"")) == [name + ("\"" + Spelled(units) + "\"")]
  {
    var text := Spelled(units);
    UnquotedStaysPlain(name);
    OnePiece(name);
    assert "\"" + text + "\"" == "\"" + (text + "\"");
    PartsConcat(Plain, name, "\"" + (text + "\""));
    PartsConcat(Plain, "\"", text + "\"");
    PartsConcat(Quoted, text, "\"");
    SpelledStaysQuoted(units);
    QuotedIsOnePart(units);
    assert "\""[..0] == "";
    assert PartsFrom(Plain, "\"") == ["\""] && PartsFrom(Quoted, "\"") == ["\""];
  }
}
