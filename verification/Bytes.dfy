/** Bytes, lexicographic order and positional numerals, shared by the storage and durability models. */
module Bytes {

  type Byte = b: nat | b < 256

  type ByteString = seq<Byte>
}

module Options {

  datatype Option<+T> = None | Some(value: T) {
    function UnwrapOr(default: T): T {
      if None? then default else value
    }
  }
}

/**
 Fixed-width numerals: big-endian numbers (durability/durability.rs) and zero-padded decimal file names
 (durability/wal.rs) are both digit strings of fixed length, most significant digit first.
 */
module Numerals {

  function Pow(base: nat, exponent: nat): nat {
    if exponent == 0 then 1 else base * Pow(base, exponent - 1)
  }

  /* Division by repeated subtraction. */
  function Quotient(n: nat, base: nat): nat
    requires base > 0
  {
    if n < base then 0 else 1 + Quotient(n - base, base)
  }

  function Remainder(n: nat, base: nat): (r: nat)
    requires base > 0
    ensures r < base
  {
    if n < base then n else Remainder(n - base, base)
  }

  lemma {:induction false} DivisionIsExact(n: nat, base: nat)
    requires base > 0
    ensures n == Quotient(n, base) * base + Remainder(n, base)
  {
    if n >= base {
      DivisionIsExact(n - base, base);
      var q := Quotient(n - base, base);
      assert (1 + q) * base == base + q * base;
    }
  }

  function Digits(n: nat, base: nat, len: nat): (ds: seq<nat>)
    requires base > 0
    ensures |ds| == len
    ensures forall k :: 0 <= k < |ds| ==> ds[k] < base
    decreases len
  {
    if len == 0 then [] else Digits(Quotient(n, base), base, len - 1) + [Remainder(n, base)]
  }

  function Value(ds: seq<nat>, base: nat): nat {
    if ds == [] then 0 else Value(ds[..|ds| - 1], base) * base + ds[|ds| - 1]
  }

  /* Lexicographic order, as slices and paths are compared. */
  predicate LexLess(a: seq<nat>, b: seq<nat>) {
    b != [] && (a == [] || a[0] < b[0] || (a[0] == b[0] && LexLess(a[1..], b[1..])))
  }

  lemma QuotientIsSmaller(n: nat, base: nat, bound: nat)
    requires base > 0 && n < base * bound
    ensures Quotient(n, base) < bound
  {
    DivisionIsExact(n, base);
    var q := Quotient(n, base);
    if q >= bound {
      ProductGrows(bound, q, base);
    }
  }

  lemma ProductGrows(a: nat, b: nat, base: nat)
    requires a <= b
    ensures a * base <= b * base
    ensures a < b ==> a * base + base <= b * base
  {
    assert (b - a) * base == b * base - a * base;
    if a < b {
      assert (b - a) * base == (b - a - 1) * base + base;
    }
  }

  /* A number that fits the width is read back as itself. */
  lemma {:induction false} DigitsRoundTrip(n: nat, base: nat, len: nat)
    requires base > 0 && n < Pow(base, len)
    ensures Value(Digits(n, base, len), base) == n
    decreases len
  {
    if len > 0 {
      QuotientIsSmaller(n, base, Pow(base, len - 1));
      DigitsRoundTrip(Quotient(n, base), base, len - 1);
      var ds := Digits(n, base, len);
      assert ds[..len - 1] == Digits(Quotient(n, base), base, len - 1);
      DivisionIsExact(n, base);
    }
  }

  lemma {:induction false} LexLessWithLastDigit(a: seq<nat>, x: nat, b: seq<nat>, y: nat)
    requires |a| == |b|
    ensures LexLess(a + [x], b + [y]) <==> LexLess(a, b) || (a == b && x < y)
  {
    if a != [] {
      LexLessWithLastDigit(a[1..], x, b[1..], y);
      assert (a + [x])[1..] == a[1..] + [x];
      assert (b + [y])[1..] == b[1..] + [y];
      assert a == b <==> a[0] == b[0] && a[1..] == b[1..];
    }
  }

  lemma QuotientOrder(n: nat, m: nat, base: nat)
    requires base > 0
    ensures n < m <==>
            || Quotient(n, base) < Quotient(m, base)
            || (Quotient(n, base) == Quotient(m, base) && Remainder(n, base) < Remainder(m, base))
  {
    DivisionIsExact(n, base);
    DivisionIsExact(m, base);
    var a, b := Quotient(n, base), Quotient(m, base);
    if a < b {
      ProductGrows(a, b, base);
    } else {
      ProductGrows(b, a, base);
    }
  }

  /* Equal digits mean equal numbers, for numbers that fit the width. */
  lemma DigitsAreInjective(n: nat, m: nat, base: nat, len: nat)
    requires base > 0 && n < Pow(base, len) && m < Pow(base, len)
    ensures Digits(n, base, len) == Digits(m, base, len) <==> n == m
  {
    DigitsRoundTrip(n, base, len);
    DigitsRoundTrip(m, base, len);
  }

  /* Fixed-width numerals sort as their numbers do. */
  lemma {:induction false} DigitsSortAsNumbers(n: nat, m: nat, base: nat, len: nat)
    requires base > 0 && n < Pow(base, len) && m < Pow(base, len)
    ensures LexLess(Digits(n, base, len), Digits(m, base, len)) <==> n < m
    decreases len
  {
    if len > 0 {
      QuotientIsSmaller(n, base, Pow(base, len - 1));
      QuotientIsSmaller(m, base, Pow(base, len - 1));
      DigitsSortAsNumbers(Quotient(n, base), Quotient(m, base), base, len - 1);
      DigitsAreInjective(Quotient(n, base), Quotient(m, base), base, len - 1);
      LexLessWithLastDigit(Digits(Quotient(n, base), base, len - 1), Remainder(n, base),
                           Digits(Quotient(m, base), base, len - 1), Remainder(m, base));
      QuotientOrder(n, m, base);
    }
  }
}

/** Concatenations of many parts, and where each part begins. */
module Joining {

  function Joined<T>(parts: seq<seq<T>>): (r: seq<T>) {
    if parts == [] then [] else Joined(parts[..|parts| - 1]) + parts[|parts| - 1]
  }

  /* Where the k-th part begins. */
  function Start<T>(parts: seq<seq<T>>, k: nat): nat
    requires k <= |parts|
  {
    |Joined(parts[..k])|
  }

  lemma {:induction false} JoinedOfConcat<T>(a: seq<seq<T>>, b: seq<seq<T>>)
    ensures Joined(a + b) == Joined(a) + Joined(b)
  {
    if b == [] {
      assert a + b == a;
    } else {
      var last := |b| - 1;
      JoinedOfConcat(a, b[..last]);
      assert (a + b)[..|a + b| - 1] == a + b[..last];
    }
  }

  lemma JoinedOfOne<T>(part: seq<T>)
    ensures Joined([part]) == part
  {
    assert [part][..0] == [];
  }

  lemma JoinedOfNone<T>()
    ensures Joined<T>([]) == []
  {
  }

  /* Taking the first part off. */
  lemma JoinedFirst<T>(parts: seq<seq<T>>)
    requires parts != []
    ensures Joined(parts) == parts[0] + Joined(parts[1..])
  {
    hide Joined;
    assert parts == [parts[0]] + parts[1..];
    JoinedOfConcat([parts[0]], parts[1..]);
    JoinedOfOne(parts[0]);
  }

  /* Taking the last part off. */
  lemma JoinedLast<T>(parts: seq<seq<T>>)
    requires parts != []
    ensures Joined(parts) == Joined(parts[..|parts| - 1]) + parts[|parts| - 1]
  {
  }

  lemma StartOfNext<T>(parts: seq<seq<T>>, k: nat)
    requires k < |parts|
    ensures Start(parts, k + 1) == Start(parts, k) + |parts[k]|
  {
    assert parts[..k + 1][..k] == parts[..k];
  }

  /* The k-th part is found where it begins. */
  lemma PartAt<T>(parts: seq<seq<T>>, k: nat)
    requires k < |parts|
    ensures Start(parts, k) + |parts[k]| == Start(parts, k + 1) <= |Joined(parts)|
    ensures Joined(parts)[Start(parts, k)..Start(parts, k + 1)] == parts[k]
  {
    StartOfNext(parts, k);
    assert parts == parts[..k + 1] + parts[k + 1..];
    JoinedOfConcat(parts[..k + 1], parts[k + 1..]);
    assert parts[..k + 1][..k] == parts[..k];
  }

  /* What lies before the k-th part is the concatenation of the parts before it. */
  lemma JoinedBefore<T>(parts: seq<seq<T>>, k: nat)
    requires k <= |parts|
    ensures Start(parts, k) <= |Joined(parts)|
    ensures Joined(parts)[..Start(parts, k)] == Joined(parts[..k])
  {
    assert parts == parts[..k] + parts[k..];
    JoinedOfConcat(parts[..k], parts[k..]);
  }

  lemma StartAtEnd<T>(parts: seq<seq<T>>)
    ensures Start(parts, |parts|) == |Joined(parts)|
  {
    assert parts[..|parts|] == parts;
  }

  lemma {:induction false} StartsGrow<T>(parts: seq<seq<T>>, i: nat, k: nat)
    requires i <= k <= |parts|
    ensures Start(parts, i) <= Start(parts, k)
    decreases k
  {
    if i < k {
      StartsGrow(parts, i, k - 1);
      StartOfNext(parts, k - 1);
    }
  }

  /* How many parts end at or before `cut`, if the first k do. */
  function WholeFrom<T>(parts: seq<seq<T>>, cut: nat, k: nat): (r: nat)
    requires k <= |parts| && Start(parts, k) <= cut
    ensures k <= r <= |parts|
    ensures Start(parts, r) <= cut
    ensures r < |parts| ==> cut < Start(parts, r + 1)
    decreases |parts| - k
  {
    if k < |parts| && Start(parts, k + 1) <= cut then WholeFrom(parts, cut, k + 1) else k
  }
}
