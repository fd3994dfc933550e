/** Small vocabulary shared by every module of the model. */
module Common {

  datatype Option<+T> = None | Some(value: T)

  /** Canonical HTTP field names: the ones the proxy inspects, and all others. */
  datatype Field =
    | Age | Authorization | CacheControl | Cookie | Expires | Pragma | Range | SetCookie | Vary
    | IfMatch | IfNoneMatch | IfModifiedSince | IfUnmodifiedSince | IfRange
    | Other(name: string)
  {
    /** The number of bytes of the canonical spelling. */
    function Length(): nat {
      match this
      case Age => 3
      case Authorization => 13
      case CacheControl => 13
      case Cookie => 6
      case Expires => 7
      case Pragma => 6
      case Range => 5
      case SetCookie => 10
      case Vary => 4
      case IfMatch => 8
      case IfNoneMatch => 13
      case IfModifiedSince => 17
      case IfUnmodifiedSince => 19
      case IfRange => 8
      case Other(name) => |name|
    }

    function Spelling(): string {
      match this
      case Age => "Age"
      case Authorization => "Authorization"
      case CacheControl => "Cache-Control"
      case Cookie => "Cookie"
      case Expires => "Expires"
      case Pragma => "Pragma"
      case Range => "Range"
      case SetCookie => "Set-Cookie"
      case Vary => "Vary"
      case IfMatch => "If-Match"
      case IfNoneMatch => "If-None-Match"
      case IfModifiedSince => "If-Modified-Since"
      case IfUnmodifiedSince => "If-Unmodified-Since"
      case IfRange => "If-Range"
      case Other(name) => name
    }

    lemma SpellingLength()
      ensures Length() == |Spelling()|
    {
    }
  }

  type Header = map<Field, seq<string>>
}

/** Go's 64-bit signed integers, and durations counted in nanoseconds. */
module Int64 {

  const MIN: int := -0x8000_0000_0000_0000
  const MAX: int := 0x7FFF_FFFF_FFFF_FFFF
  const SECOND: int := 1_000_000_000

  predicate InRange(x: int) {
    MIN <= x <= MAX
  }

  /** Two's-complement wrap-around of an arithmetic result. */
  function Wrap(x: int): int {
    (x - MIN) % 0x1_0000_0000_0000_0000 + MIN
  }

  /** Go's integer division, which truncates toward zero. */
  function Quotient(x: int, y: int): int
    requires y > 0
  {
    if x >= 0 then x / y else -((-x) / y)
  }

  /** 64 bits are eight bits and seven times that. */
  lemma Limits()
    ensures MAX + 1 == 128 * 256 * 256 * 256 * 256 * 256 * 256 * 256 && MIN == -MAX - 1
    ensures SECOND == 1000 * 1000 * 1000
  {
  }

  /** A wrapped result is in range, and off by a multiple of the range. */
  lemma WrapMeans(x: int) returns (times: int)
    ensures InRange(Wrap(x)) && Wrap(x) == x + times * (MAX - MIN + 1)
  {
    times := -((x - MIN) / 0x1_0000_0000_0000_0000);
  }

  /** A quotient is off by less than one, on the side of zero. */
  lemma QuotientMeans(x: int, y: int)
    requires y > 0
    ensures var q := Quotient(x, y);
            if x >= 0 then q * y <= x < q * y + y else q * y - y < x <= q * y
  {
  }
}

/** Request methods: the nine the standard library names, and any other token. */
module Verbs {

  datatype Verb = Connect | Delete | Get | Head | Options | Patch | Post | Put | Trace | Custom(token: string)
}

/** Sums over finite maps, independent of the order in which keys are visited. */
module Sums {

  ghost function Pick<K>(m: map<K, nat>): (k: K)
    requires m != map[]
    ensures k in m
  {
    var k :| k in m;
    k
  }

  ghost function Total<K>(m: map<K, nat>): nat
    decreases |m|
  {
    if m == map[] then 0
    else
      var k := Pick(m);
      m[k] + Total(m - {k})
  }

  lemma {:induction false} TotalSplit<K>(m: map<K, nat>, k: K)
    requires k in m
    ensures Total(m) == m[k] + Total(m - {k})
    decreases |m|
  {
    var p := Pick(m);
    if p != k {
      TotalSplit(m - {p}, k);
      TotalSplit(m - {k}, p);
      assert m - {p} - {k} == m - {k} - {p};
    }
  }

  lemma TotalUpdate<K>(m: map<K, nat>, k: K, v: nat)
    ensures Total(m[k := v]) == v + Total(m - {k})
  {
    TotalSplit(m[k := v], k);
    assert m[k := v] - {k} == m - {k};
  }
}
