/** The zigzag scan of jutils.c, a permutation of 0..63. */
module ZigzagScan {

  /** Natural-order position of the k-th element of zigzag order. */
  function NaturalOrder(k: nat): (n: nat)
    requires k < 64
    ensures n < 64
  {
    match k
    case 0 => 0 case 1 => 1 case 2 => 8 case 3 => 16
    case 4 => 9 case 5 => 2 case 6 => 3 case 7 => 10
    case 8 => 17 case 9 => 24 case 10 => 32 case 11 => 25
    case 12 => 18 case 13 => 11 case 14 => 4 case 15 => 5
    case 16 => 12 case 17 => 19 case 18 => 26 case 19 => 33
    case 20 => 40 case 21 => 48 case 22 => 41 case 23 => 34
    case 24 => 27 case 25 => 20 case 26 => 13 case 27 => 6
    case 28 => 7 case 29 => 14 case 30 => 21 case 31 => 28
    case 32 => 35 case 33 => 42 case 34 => 49 case 35 => 56
    case 36 => 57 case 37 => 50 case 38 => 43 case 39 => 36
    case 40 => 29 case 41 => 22 case 42 => 15 case 43 => 23
    case 44 => 30 case 45 => 37 case 46 => 44 case 47 => 51
    case 48 => 58 case 49 => 59 case 50 => 52 case 51 => 45
    case 52 => 38 case 53 => 31 case 54 => 39 case 55 => 46
    case 56 => 53 case 57 => 60 case 58 => 61 case 59 => 54
    case 60 => 47 case 61 => 55 case 62 => 62 case 63 => 63
  }

  /** Zigzag position of the element at natural-order position k. */
  function ZigzagOrder(k: nat): (n: nat)
    requires k < 64
    ensures n < 64
  {
    match k
    case 0 => 0 case 1 => 1 case 2 => 5 case 3 => 6
    case 4 => 14 case 5 => 15 case 6 => 27 case 7 => 28
    case 8 => 2 case 9 => 4 case 10 => 7 case 11 => 13
    case 12 => 16 case 13 => 26 case 14 => 29 case 15 => 42
    case 16 => 3 case 17 => 8 case 18 => 12 case 19 => 17
    case 20 => 25 case 21 => 30 case 22 => 41 case 23 => 43
    case 24 => 9 case 25 => 11 case 26 => 18 case 27 => 24
    case 28 => 31 case 29 => 40 case 30 => 44 case 31 => 53
    case 32 => 10 case 33 => 19 case 34 => 23 case 35 => 32
    case 36 => 39 case 37 => 45 case 38 => 52 case 39 => 54
    case 40 => 20 case 41 => 22 case 42 => 33 case 43 => 38
    case 44 => 46 case 45 => 51 case 46 => 55 case 47 => 60
    case 48 => 21 case 49 => 34 case 50 => 37 case 51 => 47
    case 52 => 50 case 53 => 56 case 54 => 59 case 55 => 61
    case 56 => 35 case 57 => 36 case 58 => 48 case 59 => 49
    case 60 => 57 case 61 => 58 case 62 => 62 case 63 => 63
  }

  /** The two orders undo each other. */
  lemma ZigzagOfNatural(k: nat)
    requires k < 64
    ensures ZigzagOrder(NaturalOrder(k)) == k
  {
    hide *;
    if k < 32 { ZigzagOfNaturalLow(k); } else { ZigzagOfNaturalHigh(k); }
  }

  lemma ZigzagOfNaturalLow(k: nat)
    requires 0 <= k < 32
    ensures ZigzagOrder(NaturalOrder(k)) == k
  {
    match k
    case 0 => case 1 => case 2 => case 3 => case 4 => case 5 => case 6 => case 7 =>
    case 8 => case 9 => case 10 => case 11 => case 12 => case 13 => case 14 => case 15 =>
    case 16 => case 17 => case 18 => case 19 => case 20 => case 21 => case 22 => case 23 =>
    case 24 => case 25 => case 26 => case 27 => case 28 => case 29 => case 30 =>
    case _ => assert k == 31;
  }

  lemma ZigzagOfNaturalHigh(k: nat)
    requires 32 <= k < 64
    ensures ZigzagOrder(NaturalOrder(k)) == k
  {
    match k
    case 32 => case 33 => case 34 => case 35 => case 36 => case 37 => case 38 => case 39 =>
    case 40 => case 41 => case 42 => case 43 => case 44 => case 45 => case 46 => case 47 =>
    case 48 => case 49 => case 50 => case 51 => case 52 => case 53 => case 54 => case 55 =>
    case 56 => case 57 => case 58 => case 59 => case 60 => case 61 => case 62 =>
    case _ => assert k == 63;
  }

  lemma NaturalOfZigzag(k: nat)
    requires k < 64
    ensures NaturalOrder(ZigzagOrder(k)) == k
  {
    hide *;
    if k < 32 { NaturalOfZigzagLow(k); } else { NaturalOfZigzagHigh(k); }
  }

  lemma NaturalOfZigzagLow(k: nat)
    requires 0 <= k < 32
    ensures NaturalOrder(ZigzagOrder(k)) == k
  {
    match k
    case 0 => case 1 => case 2 => case 3 => case 4 => case 5 => case 6 => case 7 =>
    case 8 => case 9 => case 10 => case 11 => case 12 => case 13 => case 14 => case 15 =>
    case 16 => case 17 => case 18 => case 19 => case 20 => case 21 => case 22 => case 23 =>
    case 24 => case 25 => case 26 => case 27 => case 28 => case 29 => case 30 =>
    case _ => assert k == 31;
  }

  lemma NaturalOfZigzagHigh(k: nat)
    requires 32 <= k < 64
    ensures NaturalOrder(ZigzagOrder(k)) == k
  {
    match k
    case 32 => case 33 => case 34 => case 35 => case 36 => case 37 => case 38 => case 39 =>
    case 40 => case 41 => case 42 => case 43 => case 44 => case 45 => case 46 => case 47 =>
    case 48 => case 49 => case 50 => case 51 => case 52 => case 53 => case 54 => case 55 =>
    case 56 => case 57 => case 58 => case 59 => case 60 => case 61 => case 62 =>
    case _ => assert k == 63;
  }

  // ---- the law of the scan (T.81 figure 5) ----

  /** The way through the square: up and to the right on the diagonals of even number, down and to the left on those of
      odd number, along the border where a diagonal ends. */
  function NextPosition(n: nat): nat
    requires n < 63
  {
    var r, c := n / 8, n % 8;
    if (r + c) % 2 == 0 then
      if c == 7 then n + 8 else if r == 0 then n + 1 else n - 7
    else
      if r == 7 then n + 1 else if c == 0 then n + 8 else n + 7
  }

  lemma NaturalFollows(k: nat)
    requires k < 63
    ensures NaturalOrder(k) < 63 && NaturalOrder(k + 1) == NextPosition(NaturalOrder(k))
  {
    hide *;
    if k < 16 {
      NaturalFollows0(k);
    } else if k < 32 {
      NaturalFollows16(k);
    } else if k < 48 {
      NaturalFollows32(k);
    } else {
      NaturalFollows48(k);
    }
  }

  lemma NaturalFollows0(k: nat)
    requires 0 <= k < 16
    ensures NaturalOrder(k) < 63 && NaturalOrder(k + 1) == NextPosition(NaturalOrder(k))
  {
    match k
    case 0 => case 1 => case 2 => case 3 => case 4 => case 5 => case 6 => case 7 =>
    case 8 => case 9 => case 10 => case 11 => case 12 => case 13 => case 14 =>
    case _ => assert k == 15;
  }

  lemma NaturalFollows16(k: nat)
    requires 16 <= k < 32
    ensures NaturalOrder(k) < 63 && NaturalOrder(k + 1) == NextPosition(NaturalOrder(k))
  {
    match k
    case 16 => case 17 => case 18 => case 19 => case 20 => case 21 => case 22 => case 23 =>
    case 24 => case 25 => case 26 => case 27 => case 28 => case 29 => case 30 =>
    case _ => assert k == 31;
  }

  lemma NaturalFollows32(k: nat)
    requires 32 <= k < 48
    ensures NaturalOrder(k) < 63 && NaturalOrder(k + 1) == NextPosition(NaturalOrder(k))
  {
    match k
    case 32 => case 33 => case 34 => case 35 => case 36 => case 37 => case 38 => case 39 =>
    case 40 => case 41 => case 42 => case 43 => case 44 => case 45 => case 46 =>
    case _ => assert k == 47;
  }

  lemma NaturalFollows48(k: nat)
    requires 48 <= k < 63
    ensures NaturalOrder(k) < 63 && NaturalOrder(k + 1) == NextPosition(NaturalOrder(k))
  {
    match k
    case 48 => case 49 => case 50 => case 51 => case 52 => case 53 => case 54 => case 55 =>
    case 56 => case 57 => case 58 => case 59 => case 60 => case 61 =>
    case _ => assert k == 62;
  }

  /** A list of positions is the zigzag order if and only if it starts in the corner and goes that way. */
  lemma {:induction false} OnlyZigzag(order: seq<nat>)
    requires |order| == 64
    ensures (forall k :: 0 <= k < 64 ==> order[k] == NaturalOrder(k))
      <==> order[0] == 0 && forall k :: 0 <= k < 63 ==> order[k] < 63 && order[k + 1] == NextPosition(order[k])
  {
    hide NaturalOrder, NextPosition;
    NaturalCorner();
    if forall k :: 0 <= k < 64 ==> order[k] == NaturalOrder(k) {
      forall k | 0 <= k < 63 ensures order[k] < 63 && order[k + 1] == NextPosition(order[k]) { NaturalFollows(k); }
    } else if order[0] == 0 && forall k :: 0 <= k < 63 ==> order[k] < 63 && order[k + 1] == NextPosition(order[k]) {
      OnlyZigzagTo(order, 63);
    }
  }

  lemma {:induction false} OnlyZigzagTo(order: seq<nat>, n: nat)
    requires |order| == 64 && n < 64 && order[0] == 0
    requires forall k :: 0 <= k < 63 ==> order[k] < 63 && order[k + 1] == NextPosition(order[k])
    ensures forall k :: 0 <= k <= n ==> order[k] == NaturalOrder(k)
  {
    hide NaturalOrder, NextPosition;
    NaturalCorner();
    if n > 0 {
      OnlyZigzagTo(order, n - 1);
      NaturalFollows(n - 1);
    }
  }

  lemma NaturalCorner()
    ensures NaturalOrder(0) == 0
  {}
}
