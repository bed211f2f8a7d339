/** Small helpers shared by every module of the case-authoring model. */
module Common {

  /** A value that may be absent: JavaScript's `undefined`/`null`, or a falsy id. */
  datatype Option<+T> = None | Some(value: T)

  /** Row ids generated by the storage layer (UUIDv4 defaults in the column definitions). */
  type Id = nat

  /** Every key of `m` lies below `bound`. */
  predicate Below<V>(m: map<Id, V>, bound: Id) {
    forall id :: id in m ==> id < bound
  }

  /** Every entry of `a` is an entry of `b`. */
  predicate Submap<V(==)>(a: map<Id, V>, b: map<Id, V>) {
    forall k :: k in a ==> k in b && b[k] == a[k]
  }

  /** `m` holds `v` under `k`. */
  predicate MapsTo<V(==)>(m: map<Id, V>, k: Id, v: V) {
    k in m && m[k] == v
  }

  /** `xs.filter(keep)`: the elements that `keep` accepts, in their order. */
  function Filter<T(!new)>(xs: seq<T>, keep: T -> bool): (r: seq<T>)
    ensures |r| <= |xs|
    ensures forall x :: x in r <==> x in xs && keep(x)
  {
    if xs == [] then []
    else
      assert xs == [xs[0]] + xs[1..];
      (if keep(xs[0]) then [xs[0]] else []) + Filter(xs[1..], keep)
  }

  /** The filter keeps order: filtering a concatenation filters each part and
      concatenates the results. */
  lemma {:induction false} FilterAppend<T(!new)>(a: seq<T>, b: seq<T>, keep: T -> bool)
    ensures Filter(a + b, keep) == Filter(a, keep) + Filter(b, keep)
  {
    if a != [] {
      assert (a + b)[1..] == a[1..] + b;
      FilterAppend(a[1..], b, keep);
    } else {
      assert a + b == b;
    }
  }

  /** An accepted element occurs in the result as often as in the input; any other
      element not at all. */
  lemma {:induction false} FilterCount<T(!new)>(xs: seq<T>, keep: T -> bool, x: T)
    ensures multiset(Filter(xs, keep))[x] == if keep(x) then multiset(xs)[x] else 0
  {
    if xs != [] {
      FilterCount(xs[1..], keep, x);
      assert xs == [xs[0]] + xs[1..];
    }
  }

  /** JavaScript's `s.includes(sub)`: `sub` occurs in `s` as a contiguous substring. */
  predicate Contains(s: string, sub: string)
    decreases |s|
  {
    |sub| <= |s| && (s[..|sub|] == sub || Contains(s[1..], sub))
  }

  /** A string never contains a longer one. */
  lemma {:induction false} ShorterNeverContains(s: string, sub: string)
    requires |s| < |sub|
    ensures !Contains(s, sub)
  {
  }

  /** Every string contains itself. */
  lemma ContainsItself(s: string)
    ensures Contains(s, s)
  {
    assert s[..|s|] == s;
  }

  /** `Contains` agrees with the positional reading: some window of `s` equals `sub`. */
  lemma {:induction false} ContainsAt(s: string, sub: string, i: nat)
    requires i + |sub| <= |s| && s[i..i + |sub|] == sub
    ensures Contains(s, sub)
  {
    if i > 0 {
      assert s[1..][i - 1..i - 1 + |sub|] == s[i..i + |sub|];
      ContainsAt(s[1..], sub, i - 1);
    }
  }

  predicate IsHexDigit(c: char) {
    ('0' <= c <= '9') || ('a' <= c <= 'f') || ('A' <= c <= 'F')
  }

  /** Zod's `string().uuid()`, taken as the 8-4-4-4-12 hexadecimal shape. */
  predicate IsUuid(s: string) {
    && |s| == 36
    && (forall i :: 0 <= i < 36 ==> (if i in {8, 13, 18, 23} then s[i] == '-' else IsHexDigit(s[i])))
  }

  /** Zod's `string().email()`, taken as: a non-empty local part without `@`, one `@`,
      and a domain holding a dot that is neither its first nor its last character. */
  predicate IsEmail(s: string) {
    exists at :: 0 < at < |s| && s[at] == '@' && ValidLocalAndDomain(s[..at], s[at + 1..])
  }

  predicate ValidLocalAndDomain(local: string, domain: string) {
    && '@' !in local
    && '@' !in domain
    && exists dot :: 0 < dot < |domain| - 1 && domain[dot] == '.'
  }

  /** Decimal rendering of a natural number, as a template literal renders it. */
  function NatToString(n: nat): (r: string)
    ensures |r| >= 1
    ensures forall i :: 0 <= i < |r| ==> '0' <= r[i] <= '9'
  {
    if n < 10 then [Digit(n)] else NatToString(n / 10) + [Digit(n % 10)]
  }

  function Digit(d: nat): (c: char)
    requires d < 10
    ensures '0' <= c <= '9'
  {
    ['0', '1', '2', '3', '4', '5', '6', '7', '8', '9'][d]
  }
}
