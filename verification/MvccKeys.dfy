/**
 Versioned keys as they are stored (storage/storage.rs, `MVCCKey`): the key, the inverted sequence number and
 the operation, so that byte order is key order with newer versions first.
 */
module LexOrder {
  import opened Numerals

  lemma {:induction false} LexLessIsIrreflexive(a: seq<nat>)
    ensures !LexLess(a, a)
  {
    if a != [] {
      LexLessIsIrreflexive(a[1..]);
    }
  }

  lemma {:induction false} LexLessIsTotal(a: seq<nat>, b: seq<nat>)
    ensures a == b || LexLess(a, b) || LexLess(b, a)
  {
    if a != [] && b != [] && a[0] == b[0] {
      LexLessIsTotal(a[1..], b[1..]);
      assert a == [a[0]] + a[1..] && b == [b[0]] + b[1..];
    }
  }

  lemma {:induction false} LexLessIsTransitive(a: seq<nat>, b: seq<nat>, c: seq<nat>)
    requires LexLess(a, b) && LexLess(b, c)
    ensures LexLess(a, c)
  {
    if a != [] && a[0] == b[0] == c[0] {
      LexLessIsTransitive(a[1..], b[1..], c[1..]);
    }
  }

  lemma LexLessIsAsymmetric(a: seq<nat>, b: seq<nat>)
    requires LexLess(a, b)
    ensures !LexLess(b, a) && a != b
  {
    LexLessIsIrreflexive(a);
    if LexLess(b, a) {
      LexLessIsTransitive(a, b, a);
    }
  }

  lemma {:induction false} SharedPrefix(p: seq<nat>, a: seq<nat>, b: seq<nat>)
    ensures LexLess(p + a, p + b) <==> LexLess(a, b)
  {
    if p == [] {
      assert p + a == a && p + b == b;
    } else {
      SharedPrefix(p[1..], a, b);
      assert (p + a)[1..] == p[1..] + a && (p + b)[1..] == p[1..] + b;
    }
  }

  /* Keys that already differ keep their order whatever follows them. */
  lemma {:induction false} DifferentKeysDecide(a: seq<nat>, x: seq<nat>, b: seq<nat>, y: seq<nat>)
    requires !(a <= b) && !(b <= a)
    ensures LexLess(a + x, b + y) <==> LexLess(a, b)
  {
    if a[0] == b[0] {
      assert a == [a[0]] + a[1..] && b == [b[0]] + b[1..];
      DifferentKeysDecide(a[1..], x, b[1..], y);
      assert (a + x)[1..] == a[1..] + x && (b + y)[1..] == b[1..] + y;
    }
  }

  /* Nothing that starts with p comes before p. */
  lemma ExtensionIsNotLess(p: seq<nat>, x: seq<nat>)
    ensures !LexLess(p + x, p)
  {
    SharedPrefix(p, x, []);
    assert p + [] == p;
  }

  lemma NotLessTransitively(a: seq<nat>, b: seq<nat>, c: seq<nat>)
    requires !LexLess(b, a) && LexLess(b, c)
    ensures LexLess(a, c)
  {
    LexLessIsTotal(a, b);
    if LexLess(a, b) {
      LexLessIsTransitive(a, b, c);
    }
  }
}

module MvccKeys {
  import opened Bytes
  import opened Numerals
  import opened LexOrder

  const NUMBER_BYTES: nat := 8
  const SUFFIX_BYTES: nat := 9

  datatype Operation = Insert | Delete

  datatype Version = Version(key: ByteString, number: nat, operation: Operation, value: ByteString)

  function OperationByte(operation: Operation): Byte {
    if operation == Insert then 0 else 1
  }

  predicate IsNumber(n: nat) {
    n < Pow(256, NUMBER_BYTES)
  }

  function Inverted(n: nat): (r: nat)
    requires IsNumber(n)
    ensures IsNumber(r) && r + n + 1 == Pow(256, NUMBER_BYTES)
  {
    Pow(256, NUMBER_BYTES) - 1 - n
  }

  function Suffix(n: nat, operation: Operation): (bytes: ByteString)
    requires IsNumber(n)
    ensures |bytes| == SUFFIX_BYTES
  {
    Digits(Inverted(n), 256, NUMBER_BYTES) + [OperationByte(operation)]
  }

  function Encoded(key: ByteString, n: nat, operation: Operation): (bytes: ByteString)
    requires IsNumber(n)
  {
    key + Suffix(n, operation)
  }

  /******* Reading the parts back *******/

  function KeyOf(bytes: ByteString): ByteString
    requires |bytes| >= SUFFIX_BYTES
  {
    bytes[..|bytes| - SUFFIX_BYTES]
  }

  function NumberOf(bytes: ByteString): int
    requires |bytes| >= SUFFIX_BYTES
  {
    Pow(256, NUMBER_BYTES) - 1 - Value(bytes[|bytes| - SUFFIX_BYTES..|bytes| - 1], 256)
  }

  function OperationByteOf(bytes: ByteString): Byte
    requires |bytes| >= SUFFIX_BYTES
  {
    bytes[|bytes| - 1]
  }

  lemma EncodedReadsBack(key: ByteString, n: nat, operation: Operation)
    requires IsNumber(n)
    ensures var bytes := Encoded(key, n, operation);
            && |bytes| >= SUFFIX_BYTES && KeyOf(bytes) == key && NumberOf(bytes) == n
            && OperationByteOf(bytes) == OperationByte(operation)
  {
    hide Pow;
    var digits: ByteString := Digits(Inverted(n), 256, NUMBER_BYTES);
    DigitsRoundTrip(Inverted(n), 256, NUMBER_BYTES);
    var bytes := Encoded(key, n, operation);
    assert bytes == (key + digits) + [OperationByte(operation)];
    assert bytes[|key|..|key| + NUMBER_BYTES] == digits;
  }

  /* The bytes of a stored key: the key, then eight bytes for the number counted down from the greatest, most
     significant byte first, then 0 for an insert and 1 for a delete. */
  lemma EncodedLayout(key: ByteString, n: nat, operation: Operation)
    requires n < 18446744073709551616
    ensures IsNumber(n)
    ensures var bytes := Encoded(key, n, operation);
            && |bytes| == |key| + 9 && bytes[..|key|] == key
            && Value(bytes[|key|..|key| + 8], 256) == 18446744073709551615 - n
            && bytes[|key| + 8] == if operation == Insert then 0 else 1
  {
    assert Pow(256, 4) == 256 * (256 * (256 * (256 * 1)));
    assert Pow(256, 8) == 256 * (256 * (256 * (256 * Pow(256, 4)))) == 18446744073709551616;
    hide Pow;
    var bytes := Encoded(key, n, operation);
    DigitsRoundTrip(Inverted(n), 256, NUMBER_BYTES);
    assert bytes[|key|..|key| + 8] == Digits(Inverted(n), 256, NUMBER_BYTES);
  }

  /******* Order *******/

  lemma SuffixesSortNewestFirst(n: nat, o: Operation, m: nat, p: Operation)
    requires IsNumber(n) && IsNumber(m)
    ensures LexLess(Suffix(n, o), Suffix(m, p)) <==> n > m || (n == m && o == Insert && p == Delete)
  {
    hide Pow;
    LexLessWithLastDigit(Digits(Inverted(n), 256, NUMBER_BYTES), OperationByte(o),
                         Digits(Inverted(m), 256, NUMBER_BYTES), OperationByte(p));
    DigitsSortAsNumbers(Inverted(n), Inverted(m), 256, NUMBER_BYTES);
    DigitsAreInjective(Inverted(n), Inverted(m), 256, NUMBER_BYTES);
  }

  /* Stored keys sort by key and then newest first, as long as no key is a proper prefix of another. */
  lemma EncodedSortsByKeyThenNewest(a: ByteString, n: nat, o: Operation, b: ByteString, m: nat, p: Operation)
    requires IsNumber(n) && IsNumber(m) && (a <= b || b <= a ==> a == b)
    ensures LexLess(Encoded(a, n, o), Encoded(b, m, p)) <==>
            LexLess(a, b) || (a == b && (n > m || (n == m && o == Insert && p == Delete)))
  {
    if a == b {
      SharedPrefix(a, Suffix(n, o), Suffix(m, p));
      SuffixesSortNewestFirst(n, o, m, p);
      LexLessIsIrreflexive(a);
    } else {
      DifferentKeysDecide(a, Suffix(n, o), b, Suffix(m, p));
    }
  }

  /******* Seeking by key *******/

  /* A target that extends the key by so little that it may fall among the key's own versions. */
  predicate FallsAmongVersions(key: ByteString, target: ByteString) {
    LexLess(key, target) && !LexLess(Encoded(key, 0, Delete), target)
  }

  lemma VersionBelowTarget(key: ByteString, n: nat, o: Operation, target: ByteString)
    requires IsNumber(n) && !FallsAmongVersions(key, target)
    ensures LexLess(Encoded(key, n, o), target) <==> LexLess(key, target)
  {
    ExtensionIsNotLess(key, Suffix(n, o));
    if LexLess(key, target) {
      SuffixesSortNewestFirst(0, Delete, n, o);
      SharedPrefix(key, Suffix(0, Delete), Suffix(n, o));
      NotLessTransitively(Encoded(key, n, o), Encoded(key, 0, Delete), target);
    } else if LexLess(Encoded(key, n, o), target) {
      NotLessTransitively(key, Encoded(key, n, o), target);
    }
  }

  /* A byte-wise seek passes exactly the versions of smaller keys if and only if the target does not fall
     among the versions of a key. */
  lemma SeekPassesSmallerKeysExactly(key: ByteString, target: ByteString)
    ensures (forall n, o :: IsNumber(n) ==> (LexLess(Encoded(key, n, o), target) <==> LexLess(key, target))) <==>
            !FallsAmongVersions(key, target)
  {
    if !FallsAmongVersions(key, target) {
      forall n: nat, o | IsNumber(n) ensures LexLess(Encoded(key, n, o), target) <==> LexLess(key, target) {
        VersionBelowTarget(key, n, o, target);
      }
    } else {
      assert IsNumber(0) && !(LexLess(Encoded(key, 0, Delete), target) <==> LexLess(key, target));
    }
  }
}
