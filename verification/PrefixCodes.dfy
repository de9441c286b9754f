/** The Kraft inequality: the code lengths of any prefix code are feasible. */
module PrefixCodes {
  import opened Bits
  import opened Sums

  /** No code of a symbol in use is a prefix of another one's. */
  ghost predicate PrefixCode(freq: seq<nat>, codes: seq<seq<bool>>) {
    && |freq| == |codes|
    && forall i, j :: 0 <= i < |freq| && 0 <= j < |freq| && i != j && freq[i] > 0 && freq[j] > 0 ==>
      !(codes[i] <= codes[j])
  }

  function Lengths(codes: seq<seq<bool>>): (r: seq<nat>)
    ensures |r| == |codes|
  {
    seq(|codes|, i requires 0 <= i < |codes| => |codes[i]|)
  }

  /** The m numbers from lo on. */
  function Range(lo: nat, m: nat): (s: set<nat>)
    ensures |s| == m
    ensures forall x :: x in s <==> lo <= x < lo + m
  {
    if m == 0 then {} else Range(lo, m - 1) + {lo + m - 1}
  }

  /** The n-bit numbers that start with w. */
  ghost function Extensions(w: seq<bool>, n: nat): (s: set<nat>)
    requires |w| <= n
  {
    Range(Value(w) * Pow2(n - |w|), Pow2(n - |w|))
  }

  lemma ExtensionStartsWith(w: seq<bool>, n: nat, x: nat)
    requires |w| <= n && x in Extensions(w, n)
    ensures x < Pow2(n) && w <= ToBits(x, n)
  {
    hide Value, ToBits, Pow2, Range;
    ExtensionsFit(w, n);
    var m := n - |w|;
    DivModUnique(x, Pow2(m), Value(w), x - Value(w) * Pow2(m));
    ToBitsSplit(x, |w|, m);
    ToBitsValue(w);
    assert |w| + m == n;
  }

  lemma ExtensionsFit(w: seq<bool>, n: nat)
    requires |w| <= n
    ensures Value(w) * Pow2(n - |w|) + Pow2(n - |w|) <= Pow2(n)
  {
    hide *;
    Pow2Add(|w|, n - |w|);
    assert |w| + (n - |w|) == n;
    Distribute(Value(w), 1, Pow2(n - |w|));
    ValueBound(w);
    MulMono(Value(w) + 1, Pow2(|w|), Pow2(n - |w|));
  }

  lemma ValueBound(w: seq<bool>)
    ensures Value(w) + 1 <= Pow2(|w|)
  {}

  lemma CommonPrefix(v: seq<bool>, w: seq<bool>, b: seq<bool>)
    requires v <= b && w <= b
    ensures v <= w || w <= v
  {
    assert v == b[..|v|] && w == b[..|w|];
    if |v| <= |w| {
      assert v == w[..|v|];
    } else {
      assert w == v[..|w|];
    }
  }

  lemma ExtensionsSize(w: seq<bool>, n: nat)
    requires |w| <= n
    ensures |Extensions(w, n)| == Pow2(n - |w|)
  {}

  lemma ExtensionsDisjoint(v: seq<bool>, w: seq<bool>, n: nat)
    requires |v| <= n && |w| <= n && !(v <= w) && !(w <= v)
    ensures Extensions(v, n) !! Extensions(w, n)
  {
    hide Extensions, ToBits;
    forall x | x in Extensions(v, n) && x in Extensions(w, n) ensures false {
      ExtensionStartsWith(v, n, x);
      ExtensionStartsWith(w, n, x);
      CommonPrefix(v, w, ToBits(x, n));
    }
  }

  ghost predicate Fits(freq: seq<nat>, codes: seq<seq<bool>>, n: nat) {
    |freq| == |codes| && forall i :: 0 <= i < |freq| && freq[i] > 0 ==> |codes[i]| <= n
  }

  /** All n-bit numbers starting with one of the first k codes in use. */
  ghost function AllExtensions(freq: seq<nat>, codes: seq<seq<bool>>, n: nat, k: nat): (s: set<nat>)
    requires Fits(freq, codes, n) && k <= |freq|
  {
    if k == 0 then {}
    else AllExtensions(freq, codes, n, k - 1) + if freq[k - 1] > 0 then Extensions(codes[k - 1], n) else {}
  }

  lemma {:induction false} Extended(freq: seq<nat>, codes: seq<seq<bool>>, n: nat, k: nat, x: nat) returns (i: nat)
    requires Fits(freq, codes, n) && k <= |freq| && x in AllExtensions(freq, codes, n, k)
    ensures i < k && freq[i] > 0 && x in Extensions(codes[i], n)
  {
    hide Extensions;
    if x in AllExtensions(freq, codes, n, k - 1) {
      i := Extended(freq, codes, n, k - 1, x);
    } else {
      i := k - 1;
    }
  }

  lemma {:induction false} CountExtensions(freq: seq<nat>, codes: seq<seq<bool>>, n: nat, k: nat)
    requires PrefixCode(freq, codes) && Fits(freq, codes, n) && k <= |freq|
    ensures |AllExtensions(freq, codes, n, k)| == Sum(KraftTerms(freq, Lengths(codes), n)[..k])
  {
    hide Extensions, Pow2;
    var t := KraftTerms(freq, Lengths(codes), n);
    if k > 0 {
      var j := k - 1;
      CountExtensions(freq, codes, n, j);
      assert t[..k][..j] == t[..j];
      if freq[j] > 0 {
        var before := AllExtensions(freq, codes, n, j);
        forall x | x in before && x in Extensions(codes[j], n) ensures false {
          var i := Extended(freq, codes, n, j, x);
          ExtensionsDisjoint(codes[i], codes[j], n);
        }
        ExtensionsSize(codes[j], n);
      }
    }
  }

  /** Kraft's inequality. */
  lemma PrefixCodeFeasible(freq: seq<nat>, codes: seq<seq<bool>>, n: nat)
    requires PrefixCode(freq, codes) && Fits(freq, codes, n)
    ensures Feasible(freq, Lengths(codes), n)
  {
    hide Pow2, Sum, KraftTerms, AllExtensions, Extensions;
    CountExtensions(freq, codes, n, |freq|);
    var all := AllExtensions(freq, codes, n, |freq|);
    forall x | x in all ensures x < Pow2(n) {
      var i := Extended(freq, codes, n, |freq|, x);
      ExtensionStartsWith(codes[i], n, x);
    }
    SubsetSize(all, Range(0, Pow2(n)));
    var t := KraftTerms(freq, Lengths(codes), n);
    assert t[..|freq|] == t;
  }
}
