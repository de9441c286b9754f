/** What insertion by a comparison function does to a list, and the comparison functions that are used for it. */
module SortedInsertion {
  import opened Bits

  /** The first place whose element comes after x. */
  function InsertPosition<T>(cmp: (T, T) -> int, x: T, xs: seq<T>): (k: nat)
    ensures k <= |xs|
    ensures forall i :: 0 <= i < k ==> cmp(x, xs[i]) >= 0
    ensures k < |xs| ==> cmp(x, xs[k]) < 0
  {
    if xs == [] || cmp(x, xs[0]) < 0 then 0 else 1 + InsertPosition(cmp, x, xs[1..])
  }

  /** The first place whose element comes after x or equals it. */
  function UniquePosition<T>(cmp: (T, T) -> int, x: T, xs: seq<T>): (k: nat)
    ensures k <= |xs|
    ensures forall i :: 0 <= i < k ==> cmp(x, xs[i]) > 0
    ensures k < |xs| ==> cmp(x, xs[k]) <= 0
  {
    if xs == [] || cmp(x, xs[0]) <= 0 then 0 else 1 + UniquePosition(cmp, x, xs[1..])
  }

  function InsertAt<T>(xs: seq<T>, k: nat, x: T): seq<T>
    requires k <= |xs|
  {
    xs[..k] + [x] + xs[k..]
  }

  function InsertSorted<T>(cmp: (T, T) -> int, x: T, xs: seq<T>): seq<T> {
    InsertAt(xs, InsertPosition(cmp, x, xs), x)
  }

  /** The search refuses x when it finds an equal element. */
  predicate Refused<T>(cmp: (T, T) -> int, x: T, xs: seq<T>) {
    var k := UniquePosition(cmp, x, xs); k < |xs| && cmp(x, xs[k]) == 0
  }

  /** Among the elements of s, negative results order: a strict weak order. */
  ghost predicate Ordered<T(!new)>(cmp: (T, T) -> int, s: iset<T>) {
    && (forall a, b :: a in s && b in s && cmp(a, b) < 0 ==> cmp(b, a) >= 0)
    && (forall a, b, c :: a in s && b in s && c in s && cmp(a, b) >= 0 && cmp(b, c) >= 0 ==> cmp(a, c) >= 0)
  }

  /** And zero means that neither element comes before the other. */
  ghost predicate ThreeWay<T(!new)>(cmp: (T, T) -> int, s: iset<T>) {
    && Ordered(cmp, s)
    && forall a, b :: a in s && b in s ==> (cmp(a, b) == 0 <==> cmp(a, b) >= 0 && cmp(b, a) >= 0)
  }

  /** x and the elements of xs belong to s. */
  ghost predicate Within<T(!new)>(x: T, xs: seq<T>, s: iset<T>) {
    x in s && forall i :: 0 <= i < |xs| ==> xs[i] in s
  }

  ghost predicate Sorted<T>(cmp: (T, T) -> int, xs: seq<T>) {
    forall i, j :: 0 <= i < j < |xs| ==> cmp(xs[j], xs[i]) >= 0
  }

  lemma InsertAtIndex<T>(xs: seq<T>, k: nat, x: T, i: nat)
    requires k <= |xs| && i <= |xs|
    ensures |InsertAt(xs, k, x)| == |xs| + 1
    ensures InsertAt(xs, k, x)[i] == if i < k then xs[i] else if i == k then x else xs[i - 1]
  {}

  /** The insertion is stable: x goes behind exactly the elements that do not come after it. */
  lemma SplitPoint<T(!new)>(cmp: (T, T) -> int, s: iset<T>, x: T, xs: seq<T>)
    requires Ordered(cmp, s) && Within(x, xs, s) && Sorted(cmp, xs)
    ensures forall i :: 0 <= i < |xs| ==> (i < InsertPosition(cmp, x, xs) <==> cmp(x, xs[i]) >= 0)
  {
    hide Ordered;
    var k := InsertPosition(cmp, x, xs);
    forall i | k < i < |xs| ensures cmp(x, xs[i]) < 0 {
      if cmp(x, xs[i]) >= 0 { NotBefore(cmp, s, x, xs[i], xs[k]); }
    }
  }

  lemma NotBefore<T(!new)>(cmp: (T, T) -> int, s: iset<T>, a: T, b: T, c: T)
    requires Ordered(cmp, s) && a in s && b in s && c in s && cmp(a, b) >= 0 && cmp(b, c) >= 0
    ensures cmp(a, c) >= 0
  {}

  /** A sorted list stays sorted. */
  lemma SortedKept<T(!new)>(cmp: (T, T) -> int, s: iset<T>, x: T, xs: seq<T>)
    requires Ordered(cmp, s) && Within(x, xs, s) && Sorted(cmp, xs)
    ensures Sorted(cmp, InsertSorted(cmp, x, xs))
    ensures multiset(InsertSorted(cmp, x, xs)) == multiset(xs) + multiset{x}
  {
    hide InsertAt;
    var k, ys := InsertPosition(cmp, x, xs), InsertSorted(cmp, x, xs);
    SplitPoint(cmp, s, x, xs);
    InsertAtIndex(xs, k, x, 0);
    forall i: nat, j: nat | i < j < |ys| ensures cmp(ys[j], ys[i]) >= 0 {
      InsertAtIndex(xs, k, x, i);
      InsertAtIndex(xs, k, x, j);
    }
    InsertAtElements(xs, k, x);
  }

  lemma InsertAtElements<T>(xs: seq<T>, k: nat, x: T)
    requires k <= |xs|
    ensures multiset(InsertAt(xs, k, x)) == multiset(xs) + multiset{x}
  {
    assert xs == xs[..k] + xs[k..];
  }

  /** In a sorted list, x is refused exactly when an equal element is present, and otherwise inserted as by
      InsertSorted. */
  lemma RefusedIffPresent<T(!new)>(cmp: (T, T) -> int, s: iset<T>, x: T, xs: seq<T>)
    requires ThreeWay(cmp, s) && Within(x, xs, s) && Sorted(cmp, xs)
    ensures Refused(cmp, x, xs) <==> exists i :: 0 <= i < |xs| && cmp(x, xs[i]) == 0
    ensures !Refused(cmp, x, xs) ==> UniquePosition(cmp, x, xs) == InsertPosition(cmp, x, xs)
  {
    var k := UniquePosition(cmp, x, xs);
    SplitPoint(cmp, s, x, xs);
    if !Refused(cmp, x, xs) {
      forall i | 0 <= i < |xs| ensures cmp(x, xs[i]) != 0 {}
    }
  }

  ghost predicate StrictlySorted<T>(cmp: (T, T) -> int, xs: seq<T>) {
    forall i, j :: 0 <= i < j < |xs| ==> cmp(xs[j], xs[i]) > 0
  }

  /** Insertion with refusal keeps a list strictly sorted, hence free of equal elements. */
  lemma UniqueKept<T(!new)>(cmp: (T, T) -> int, s: iset<T>, x: T, xs: seq<T>)
    requires ThreeWay(cmp, s) && Within(x, xs, s) && StrictlySorted(cmp, xs) && !Refused(cmp, x, xs)
    ensures StrictlySorted(cmp, InsertAt(xs, UniquePosition(cmp, x, xs), x))
  {
    hide InsertAt, InsertPosition, UniquePosition;
    var k := UniquePosition(cmp, x, xs);
    var ys := InsertAt(xs, k, x);
    RefusedIffPresent(cmp, s, x, xs);
    SplitPoint(cmp, s, x, xs);
    InsertAtIndex(xs, k, x, 0);
    forall i: nat, j: nat | i < j < |ys| ensures cmp(ys[j], ys[i]) > 0 {
      InsertAtIndex(xs, k, x, i);
      InsertAtIndex(xs, k, x, j);
      Strict(cmp, s, ys[i], ys[j]);
    }
  }

  lemma Strict<T(!new)>(cmp: (T, T) -> int, s: iset<T>, a: T, b: T)
    requires ThreeWay(cmp, s) && a in s && b in s
    ensures cmp(a, b) < 0 <==> cmp(b, a) > 0
  {}

  // ---- comparison functions ----

  /** The sign of memcmp on the first n bytes. */
  function MemCmp(a: seq<byte>, b: seq<byte>, n: nat): int
    requires n <= |a| && n <= |b|
    decreases n
  {
    if n == 0 then 0
    else if a[0] != b[0] then a[0] - b[0]
    else MemCmp(a[1..], b[1..], n - 1)
  }

  /** Offset and bytes of a file signature (file_check_t, signature_t). */
  datatype Signature = Signature(offset: nat, value: seq<byte>)

  /** file_check_cmp */
  function FileCheckCmp(a: Signature, b: Signature): int {
    if |a.value| == 0 && |b.value| != 0 then -1
    else if |a.value| != 0 && |b.value| == 0 then 1
    else if a.offset != b.offset then a.offset - b.offset
    else if |a.value| == 0 && |b.value| == 0 then 0
    else
      var res := MemCmp(a.value, b.value, if |a.value| <= |b.value| then |a.value| else |b.value|);
      if res != 0 then res else |b.value| - |a.value|
  }

  /** signature_cmp; never zero. */
  function SignatureCmp(a: Signature, b: Signature): int {
    if |a.value| == 0 && |b.value| != 0 then -1
    else if |a.value| != 0 && |b.value| == 0 then 1
    else if a.offset != b.offset then a.offset - b.offset
    else if |a.value| <= |b.value| then
      var res := MemCmp(a.value, b.value, |a.value|);
      if res != 0 then res else 1
    else
      var res := MemCmp(a.value, b.value, |b.value|);
      if res != 0 then res else -1
  }

  /** Lexicographic comparison in which a string comes before its own prefixes. */
  function LongestFirst(a: seq<byte>, b: seq<byte>): int {
    if a == [] then |b|
    else if b == [] then -|a|
    else if a[0] != b[0] then a[0] - b[0]
    else LongestFirst(a[1..], b[1..])
  }

  lemma {:induction false} MemCmpLongest(a: seq<byte>, b: seq<byte>)
    ensures var res := MemCmp(a, b, if |a| <= |b| then |a| else |b|);
      LongestFirst(a, b) == if res != 0 then res else |b| - |a|
    ensures LongestFirst(b, a) == -LongestFirst(a, b)
    decreases |a|
  {
    if a != [] && b != [] { MemCmpLongest(a[1..], b[1..]); }
  }

  lemma {:induction false} LongestTransitive(a: seq<byte>, b: seq<byte>, c: seq<byte>)
    requires LongestFirst(a, b) >= 0 && LongestFirst(b, c) >= 0
    ensures LongestFirst(a, c) >= 0
    decreases |a|
  {
    if a != [] && b != [] && c != [] && a[0] == b[0] == c[0] { LongestTransitive(a[1..], b[1..], c[1..]); }
  }

  /** file_check_cmp is a proper three-way comparison. */
  lemma FileCheckThreeWay(s: iset<Signature>)
    ensures ThreeWay(FileCheckCmp, s)
  {
    forall a, b ensures FileCheckCmp(b, a) == -FileCheckCmp(a, b) {
      MemCmpLongest(a.value, b.value);
      MemCmpLongest(b.value, a.value);
    }
    forall a, b, c | FileCheckCmp(a, b) >= 0 && FileCheckCmp(b, c) >= 0 ensures FileCheckCmp(a, c) >= 0 {
      FileCheckTransitive(a, b, c);
    }
  }

  lemma FileCheckTransitive(a: Signature, b: Signature, c: Signature)
    requires FileCheckCmp(a, b) >= 0 && FileCheckCmp(b, c) >= 0
    ensures FileCheckCmp(a, c) >= 0
  {
    hide LongestFirst, MemCmp;
    MemCmpLongest(a.value, b.value);
    MemCmpLongest(b.value, c.value);
    MemCmpLongest(a.value, c.value);
    if LongestFirst(a.value, b.value) >= 0 && LongestFirst(b.value, c.value) >= 0 {
      LongestTransitive(a.value, b.value, c.value);
    }
  }

  /** a comes before b: at the first byte that differs it has the smaller one, or b is a proper prefix of it. */
  ghost predicate BytesBefore(a: seq<byte>, b: seq<byte>) {
    exists n: nat :: n <= |a| && n <= |b| && a[..n] == b[..n]
      && ((n < |a| && n < |b| && a[n] < b[n]) || (n == |b| && n < |a|))
  }

  lemma {:induction false} LongestIs(a: seq<byte>, b: seq<byte>)
    ensures LongestFirst(a, b) < 0 <==> BytesBefore(a, b)
    ensures LongestFirst(a, b) == 0 <==> a == b
    decreases |a|
  {
    hide BytesBefore;
    if a != [] && b != [] && a[0] == b[0] {
      LongestIs(a[1..], b[1..]);
      BeforeTail(a, b);
      assert a == [a[0]] + a[1..] && b == [b[0]] + b[1..];
    } else {
      BeforeHead(a, b);
    }
  }

  lemma BeforeHead(a: seq<byte>, b: seq<byte>)
    requires a != [] && b != [] ==> a[0] != b[0]
    ensures BytesBefore(a, b) <==> a != [] && (b == [] || a[0] < b[0])
  {
    assert a[..0] == b[..0];
    forall n: nat | 0 < n <= |a| && n <= |b| ensures a[..n] != b[..n] {
      if a[..n] == b[..n] { SameHead(a, b, n); }
    }
  }

  lemma SameHead(a: seq<byte>, b: seq<byte>, n: nat)
    requires 0 < n <= |a| && n <= |b| && a[..n] == b[..n]
    ensures a[0] == b[0]
  {
    assert a[0] == a[..n][0];
  }

  lemma BeforeTail(a: seq<byte>, b: seq<byte>)
    requires a != [] && b != [] && a[0] == b[0]
    ensures BytesBefore(a, b) <==> BytesBefore(a[1..], b[1..])
  {
    var c, d := a[1..], b[1..];
    if BytesBefore(a, b) {
      var n: nat :| n <= |a| && n <= |b| && a[..n] == b[..n]
        && ((n < |a| && n < |b| && a[n] < b[n]) || (n == |b| && n < |a|));
      assert n > 0;
      TakeTail(a, b, n - 1);
    }
    if BytesBefore(c, d) {
      var n: nat :| n <= |c| && n <= |d| && c[..n] == d[..n]
        && ((n < |c| && n < |d| && c[n] < d[n]) || (n == |d| && n < |c|));
      TakeTail(a, b, n);
      assert a[..n + 1] == b[..n + 1];
    }
  }

  lemma TakeTail(a: seq<byte>, b: seq<byte>, n: nat)
    requires n < |a| && n < |b| && a[0] == b[0]
    ensures a[..n + 1] == b[..n + 1] <==> a[1..][..n] == b[1..][..n]
  {
    var c, d := a[1..][..n], b[1..][..n];
    assert a[..n + 1] == [a[0]] + c && b[..n + 1] == [b[0]] + d;
    assert a[..n + 1][1..] == c && b[..n + 1][1..] == d;
  }

  /** Checks without bytes come first; then the smaller offset; at equal offsets the smaller bytes, and a longer
      signature before its own beginning. Only equal signatures are equal. */
  lemma FileCheckOrder(a: Signature, b: Signature)
    ensures FileCheckCmp(a, b) < 0 <==>
      || (a.value == [] && b.value != [])
      || ((a.value == [] <==> b.value == [])
          && (a.offset < b.offset || (a.offset == b.offset && BytesBefore(a.value, b.value))))
    ensures FileCheckCmp(a, b) == 0 <==> a == b
  {
    hide LongestFirst, MemCmp, BytesBefore;
    MemCmpLongest(a.value, b.value);
    LongestIs(a.value, b.value);
    if a.value == [] && b.value == [] { NothingBefore(); }
  }

  lemma NothingBefore()
    ensures !BytesBefore([], [])
  {}

  /** signature_cmp orders signatures exactly as file_check_cmp does; where that one says equal, it says greater. */
  lemma SignatureOrdered(s: iset<Signature>)
    ensures Ordered(SignatureCmp, s)
    ensures forall a, b :: SignatureCmp(a, b) < 0 <==> FileCheckCmp(a, b) < 0
    ensures forall a, b :: SignatureCmp(a, b) != 0
  {
    FileCheckThreeWay(s);
  }
}
