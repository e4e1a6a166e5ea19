/** The remaining-hands projection: which single hand type, played repeatedly, still
    reaches the target within the rounds left, ordered by how many plays it needs. */
module Projection {
  import opened Hands

  datatype Option<T> = None | Some(value: T)

  /** One candidate strategy: play `hand` `quantity` times for `totalNeeded` points. */
  datatype Combination = Combination(hand: Hand, name: string, points: int, quantity: int, totalNeeded: int)

  /** What the analysis screen shows. */
  datatype AnalysisView =
    | TargetReached                        // the score already meets the target
    | Impossible                           // no single hand type fits in the rounds left
    | Best(shown: seq<Combination>)        // the first (at most five) candidates

  /** Number of entries the analysis screen lists at most. */
  const ShownLimit: nat := 5

  /** Ceiling of a / b for positive operands: the fewest plays of a b-point hand that
      reach a points, counted one play at a time. */
  function CeilDiv(a: int, b: int): (q: int)
    requires a > 0 && b > 0
    ensures q >= 1
    ensures q * b >= a
    ensures (q - 1) * b < a
    decreases a
  {
    if a <= b then 1 else 1 + CeilDiv(a - b, b)
  }

  lemma MulLeftMonotone(x: int, y: int, p: int)
    requires x <= y && p >= 0
    ensures x * p <= y * p
  {
    assert y * p - x * p == (y - x) * p;
  }

  /** CeilDiv is the least quantity reaching a: no smaller number of plays suffices. */
  lemma CeilDivLeast(a: int, b: int, q: int)
    requires a > 0 && b > 0 && q * b >= a
    ensures CeilDiv(a, b) <= q
  {
    if CeilDiv(a, b) - 1 >= q {
      MulLeftMonotone(q, CeilDiv(a, b) - 1, b);
    }
  }

  /** The quantity is pinned down by its two bounds: whatever q reaches a with q plays
      but not with q - 1 is the ceiling. */
  lemma CeilDivExact(a: int, b: int, q: int)
    requires a > 0 && b > 0 && q * b >= a && (q - 1) * b < a
    ensures CeilDiv(a, b) == q
  {
    CeilDivLeast(a, b, q);
    if CeilDiv(a, b) <= q - 1 {
      MulLeftMonotone(CeilDiv(a, b), q - 1, b);
    }
  }

  /** A hand worth more never needs more plays than a hand worth less. */
  lemma CeilDivAntitone(a: int, p: int, p': int)
    requires a > 0 && p >= p' > 0
    ensures CeilDiv(a, p) <= CeilDiv(a, p')
  {
    var q' := CeilDiv(a, p');
    assert q' * p >= q' * p' by { assert q' * p - q' * p' == q' * (p - p'); }
    CeilDivLeast(a, p, q');
  }

  /** The candidate for hand `h` when `remaining` points are still missing. */
  function MakeCombination(remaining: int, h: Hand): (c: Combination)
    requires remaining > 0
    ensures c.hand == h && c.points == Points(h) && c.name == Name(h)
    ensures c.quantity >= 1 && c.totalNeeded == c.quantity * c.points
    ensures c.totalNeeded >= remaining && c.totalNeeded - c.points < remaining
  {
    var q := CeilDiv(remaining, Points(h));
    Combination(h, Name(h), Points(h), q, q * Points(h))
  }

  /** One candidate per hand of `hs`, in the order of `hs`. */
  function CombineAll(remaining: int, hs: seq<Hand>): (cs: seq<Combination>)
    requires remaining > 0
    ensures |cs| == |hs|
    ensures forall i :: 0 <= i < |cs| ==> cs[i] == MakeCombination(remaining, hs[i])
  {
    if hs == [] then [] else [MakeCombination(remaining, hs[0])] + CombineAll(remaining, hs[1..])
  }

  /** One candidate per declared hand, in declaration order. */
  function Combine(remaining: int): (cs: seq<Combination>)
    requires remaining > 0
    ensures |cs| == |Declared|
    ensures forall i :: 0 <= i < |cs| ==> cs[i] == MakeCombination(remaining, Declared[i])
  {
    CombineAll(remaining, Declared)
  }

  /** The candidates whose quantity fits in `rounds`, in their original order. */
  function KeepFitting(cs: seq<Combination>, rounds: int): (r: seq<Combination>)
    ensures |r| <= |cs|
  {
    if cs == [] then []
    else if cs[0].quantity <= rounds then [cs[0]] + KeepFitting(cs[1..], rounds)
    else KeepFitting(cs[1..], rounds)
  }

  /** An entry survives the filter exactly when it was there and fits. */
  lemma {:induction false} KeepFittingMembers(cs: seq<Combination>, rounds: int)
    ensures forall c :: c in KeepFitting(cs, rounds) <==> c in cs && c.quantity <= rounds
  {
    if cs != [] {
      KeepFittingMembers(cs[1..], rounds);
      assert cs == [cs[0]] + cs[1..];
    }
  }

  /** Some entry of `cs` is for hand `h`. */
  predicate Lists(cs: seq<Combination>, h: Hand)
  {
    exists i :: 0 <= i < |cs| && cs[i].hand == h
  }

  predicate SortedByQuantity(cs: seq<Combination>)
  {
    forall i, j :: 0 <= i < j < |cs| ==> cs[i].quantity <= cs[j].quantity
  }

  /** The entries of `cs` with quantity `q`, in their order in `cs`. */
  function WithQuantity(cs: seq<Combination>, q: int): seq<Combination>
  {
    if cs == [] then []
    else if cs[0].quantity == q then [cs[0]] + WithQuantity(cs[1..], q)
    else WithQuantity(cs[1..], q)
  }

  /** Inserts `c` before the first entry whose quantity is at least its own. */
  function Insert(c: Combination, t: seq<Combination>): (r: seq<Combination>)
    ensures |r| == |t| + 1
  {
    if t == [] || c.quantity <= t[0].quantity then [c] + t
    else
      assert t == [t[0]] + t[1..];
      [t[0]] + Insert(c, t[1..])
  }

  /** Stable sort ascending by quantity (the comparator `a.quantity - b.quantity`). */
  function SortByQuantity(cs: seq<Combination>): (r: seq<Combination>)
    ensures |r| == |cs|
  {
    if cs == [] then []
    else
      assert cs == [cs[0]] + cs[1..];
      Insert(cs[0], SortByQuantity(cs[1..]))
  }

  /** The projection: None when the target is already met, otherwise the candidates
      that fit in the rounds left, sorted by quantity. */
  function RemainingHands(targetScore: int, currentScore: int, rounds: int): (r: Option<seq<Combination>>)
    ensures r.None? <==> currentScore >= targetScore
  {
    var remaining := targetScore - currentScore;
    if remaining <= 0 then None
    else Some(SortByQuantity(KeepFitting(Combine(remaining), rounds)))
  }

  /** The analysis screen: success, failure, or the first five candidates. */
  function Analyze(targetScore: int, currentScore: int, rounds: int): (v: AnalysisView)
    ensures v.TargetReached? <==> currentScore >= targetScore
    ensures v.Impossible? <==> RemainingHands(targetScore, currentScore, rounds) == Some([])
    ensures v.Best? ==>
      var all := RemainingHands(targetScore, currentScore, rounds);
      all.Some? && v.shown <= all.value && 1 <= |v.shown| <= ShownLimit
      && |v.shown| == (if |all.value| < ShownLimit then |all.value| else ShownLimit)
  {
    if targetScore - currentScore <= 0 then TargetReached
    else
      var all := RemainingHands(targetScore, currentScore, rounds);
      if all.None? || all.value == [] then Impossible
      else Best(all.value[..if |all.value| < ShownLimit then |all.value| else ShownLimit])
  }

  // ---------------------------------------------------------------------------
  // The sort: sorted, a permutation, and stable.

  /** Insertion keeps a sorted sequence sorted. */
  lemma {:induction false} InsertSorted(c: Combination, t: seq<Combination>)
    requires SortedByQuantity(t)
    ensures SortedByQuantity(Insert(c, t))
    ensures Insert(c, t)[0] == c || Insert(c, t)[0] == t[0]
  {
    if t != [] && c.quantity > t[0].quantity {
      var rest := Insert(c, t[1..]);
      assert SortedByQuantity(t[1..]);
      InsertSorted(c, t[1..]);
      assert t[0].quantity <= rest[0].quantity;
      assert Insert(c, t) == [t[0]] + rest;
    }
  }

  lemma {:induction false} InsertWithQuantity(c: Combination, t: seq<Combination>, q: int)
    ensures WithQuantity(Insert(c, t), q)
         == if c.quantity == q then [c] + WithQuantity(t, q) else WithQuantity(t, q)
  {
    if t == [] || c.quantity <= t[0].quantity {
      assert ([c] + t)[1..] == t;
    } else {
      var rest := Insert(c, t[1..]);
      InsertWithQuantity(c, t[1..], q);
      assert ([t[0]] + rest)[1..] == rest;
      if t[0].quantity == q {
        assert WithQuantity(Insert(c, t), q) == [t[0]] + WithQuantity(rest, q);
        assert c.quantity != q;
      } else {
        assert WithQuantity(Insert(c, t), q) == WithQuantity(rest, q);
      }
    }
  }

  /** The sort output is ascending by quantity. */
  lemma {:induction false} SortSorted(cs: seq<Combination>)
    ensures SortedByQuantity(SortByQuantity(cs))
  {
    if cs != [] {
      SortSorted(cs[1..]);
      InsertSorted(cs[0], SortByQuantity(cs[1..]));
    }
  }

  lemma {:induction false} InsertPermutes(c: Combination, t: seq<Combination>)
    ensures multiset(Insert(c, t)) == multiset(t) + multiset{c}
  {
    if t != [] && c.quantity > t[0].quantity {
      var rest := Insert(c, t[1..]);
      InsertPermutes(c, t[1..]);
      assert Insert(c, t) == [t[0]] + rest;
      assert multiset(Insert(c, t)) == multiset{t[0]} + multiset(rest);
      assert t == [t[0]] + t[1..];
      assert multiset(t) == multiset{t[0]} + multiset(t[1..]);
    }
  }

  /** The sort output is a permutation of its input. */
  lemma {:induction false} SortPermutes(cs: seq<Combination>)
    ensures multiset(SortByQuantity(cs)) == multiset(cs)
  {
    if cs != [] {
      SortPermutes(cs[1..]);
      InsertPermutes(cs[0], SortByQuantity(cs[1..]));
      assert cs == [cs[0]] + cs[1..];
    }
  }

  /** Stability: for every quantity, the entries with that quantity keep their input order. */
  lemma {:induction false} SortStable(cs: seq<Combination>, q: int)
    ensures WithQuantity(SortByQuantity(cs), q) == WithQuantity(cs, q)
  {
    if cs != [] {
      SortStable(cs[1..], q);
      InsertWithQuantity(cs[0], SortByQuantity(cs[1..]), q);
    }
  }

  /** Sorting an already sorted sequence changes nothing. */
  lemma {:induction false} SortOfSorted(cs: seq<Combination>)
    requires SortedByQuantity(cs)
    ensures SortByQuantity(cs) == cs
  {
    if cs != [] {
      assert SortedByQuantity(cs[1..]);
      SortOfSorted(cs[1..]);
      assert cs == [cs[0]] + cs[1..];
    }
  }

  // ---------------------------------------------------------------------------
  // The projection over the fixed table.

  /** Candidates come out of the table already in ascending quantity. */
  lemma CombineSorted(remaining: int)
    requires remaining > 0
    ensures SortedByQuantity(Combine(remaining))
  {
    var cs := Combine(remaining);
    PointsDescending();
    forall i, j | 0 <= i < j < |cs| ensures cs[i].quantity <= cs[j].quantity {
      CeilDivAntitone(remaining, Points(Declared[i]), Points(Declared[j]));
    }
  }

  /** Filtering an ascending sequence by a quantity bound keeps a prefix of it. */
  lemma {:induction false} KeepFittingPrefix(cs: seq<Combination>, rounds: int)
    requires SortedByQuantity(cs)
    ensures forall i :: 0 <= i < |KeepFitting(cs, rounds)| ==> KeepFitting(cs, rounds)[i] == cs[i]
  {
    if cs != [] {
      var tail := cs[1..];
      var r := KeepFitting(tail, rounds);
      assert SortedByQuantity(tail);
      KeepFittingPrefix(tail, rounds);
      if cs[0].quantity > rounds {
        KeepFittingNone(tail, rounds);
      }
    }
  }

  /** When every entry needs more rounds than remain, nothing is kept. */
  lemma {:induction false} KeepFittingNone(cs: seq<Combination>, rounds: int)
    requires forall i :: 0 <= i < |cs| ==> cs[i].quantity > rounds
    ensures KeepFitting(cs, rounds) == []
  {
    if cs != [] {
      KeepFittingNone(cs[1..], rounds);
    }
  }

  /** Sorting the fitting entries of an ascending sequence changes nothing, and they
      form a prefix of it. */
  lemma SortOfFittingPrefix(cs: seq<Combination>, rounds: int)
    requires SortedByQuantity(cs)
    ensures var f := KeepFitting(cs, rounds);
      SortByQuantity(f) == f && forall i :: 0 <= i < |f| ==> f[i] == cs[i]
  {
    var f := KeepFitting(cs, rounds);
    KeepFittingPrefix(cs, rounds);
    assert SortedByQuantity(f);
    SortOfSorted(f);
  }

  /** On the fixed table the sort changes nothing, and the fitting candidates are the
      first k declared hands for some k. */
  lemma TableFitting(remaining: int, rounds: int)
    requires remaining > 0
    ensures var f := KeepFitting(Combine(remaining), rounds);
      SortByQuantity(f) == f && forall i :: 0 <= i < |f| ==> f[i] == Combine(remaining)[i]
  {
    CombineSorted(remaining);
    SortOfFittingPrefix(Combine(remaining), rounds);
  }

  /** Entry i of the candidate table is the candidate for the i-th declared hand. */
  lemma CombineEntries(remaining: int)
    requires remaining > 0
    ensures forall i :: 0 <= i < |Combine(remaining)| ==>
      Combine(remaining)[i].hand == Declared[i] && Rank(Combine(remaining)[i].hand) == i
      && Combine(remaining)[i] == MakeCombination(remaining, Combine(remaining)[i].hand)
  {
    DeclaredOnce();
  }

  lemma TableFittingSound(remaining: int, rounds: int)
    requires remaining > 0
    ensures forall c :: c in KeepFitting(Combine(remaining), rounds) ==>
      c == MakeCombination(remaining, c.hand) && c.quantity <= rounds
  {
    var cs := Combine(remaining);
    KeepFittingMembers(cs, rounds);
    CombineEntries(remaining);
    forall c | c in KeepFitting(cs, rounds)
      ensures c == MakeCombination(remaining, c.hand)
    {
      var i :| 0 <= i < |cs| && cs[i] == c;
    }
  }

  lemma TableFittingDistinct(remaining: int, rounds: int)
    requires remaining > 0
    ensures var f := KeepFitting(Combine(remaining), rounds);
      forall i, j :: 0 <= i < j < |f| ==> f[i].hand != f[j].hand
  {
    TableFitting(remaining, rounds);
    CombineEntries(remaining);
    DeclaredOnce();
  }

  /** The candidate of a hand is in the table, and it is the only entry for that hand. */
  lemma CombineHasCandidate(remaining: int, h: Hand)
    requires remaining > 0
    ensures MakeCombination(remaining, h) in Combine(remaining)
    ensures forall c :: c in Combine(remaining) && c.hand == h ==> c == MakeCombination(remaining, h)
  {
    assert Combine(remaining)[Rank(h)] == MakeCombination(remaining, h);
    forall c | c in Combine(remaining) && c.hand == h ensures c == MakeCombination(remaining, h) {
      var k :| 0 <= k < |Combine(remaining)| && Combine(remaining)[k] == c;
    }
  }

  /** If `c` is the one entry of `cs` for hand `h`, the filter keeps an entry for `h`
      exactly when `c` fits. */
  lemma FittingHasHand(cs: seq<Combination>, rounds: int, h: Hand, c: Combination)
    requires c in cs && c.hand == h
    requires forall d :: d in cs && d.hand == h ==> d == c
    ensures Lists(KeepFitting(cs, rounds), h) <==> c.quantity <= rounds
  {
    var f := KeepFitting(cs, rounds);
    KeepFittingMembers(cs, rounds);
    if c.quantity <= rounds {
      assert c in f;
      var i :| 0 <= i < |f| && f[i] == c;
      assert f[i].hand == h;
    } else {
      forall i | 0 <= i < |f| ensures f[i].hand != h {
        assert f[i] in f;
        assert f[i] in cs && f[i].quantity <= rounds;
      }
    }
  }

  lemma TableFittingComplete(remaining: int, rounds: int, h: Hand)
    requires remaining > 0
    ensures Lists(KeepFitting(Combine(remaining), rounds), h) <==> CeilDiv(remaining, Points(h)) <= rounds
  {
    CombineHasCandidate(remaining, h);
    FittingHasHand(Combine(remaining), rounds, h, MakeCombination(remaining, h));
  }

  lemma TableFittingOrder(remaining: int, rounds: int)
    requires remaining > 0
    ensures var f := KeepFitting(Combine(remaining), rounds);
      forall i, j :: 0 <= i < j < |f| ==>
        f[i].quantity < f[j].quantity
        || (f[i].quantity == f[j].quantity && Rank(f[i].hand) < Rank(f[j].hand))
  {
    TableFitting(remaining, rounds);
    CombineSorted(remaining);
    CombineEntries(remaining);
  }

  /** Because higher-valued hands never need more plays, the sort leaves the declared
      order untouched: the projection is the fitting candidates in declaration order,
      which are the first k declared hands for some k. */
  lemma RemainingHandsInDeclaredOrder(targetScore: int, currentScore: int, rounds: int)
    requires currentScore < targetScore
    ensures var cs := Combine(targetScore - currentScore);
      var r := RemainingHands(targetScore, currentScore, rounds);
      r == Some(KeepFitting(cs, rounds))
  {
    var remaining := targetScore - currentScore;
    assert RemainingHands(targetScore, currentScore, rounds)
        == Some(SortByQuantity(KeepFitting(Combine(remaining), rounds)));
    TableFitting(remaining, rounds);
  }

  /** Every returned entry is the candidate of its own hand (so, by the contract of
      MakeCombination, the fewest plays of that hand reaching the missing points) and fits
      in the rounds left. */
  lemma RemainingHandsSound(targetScore: int, currentScore: int, rounds: int)
    requires currentScore < targetScore
    ensures var r := RemainingHands(targetScore, currentScore, rounds).value;
      forall c :: c in r ==>
        c == MakeCombination(targetScore - currentScore, c.hand) && c.quantity <= rounds
  {
    RemainingHandsInDeclaredOrder(targetScore, currentScore, rounds);
    TableFittingSound(targetScore - currentScore, rounds);
  }

  /** A hand appears exactly when its quantity fits in the rounds left, and at most once. */
  lemma RemainingHandsComplete(targetScore: int, currentScore: int, rounds: int, h: Hand)
    requires currentScore < targetScore
    ensures Lists(RemainingHands(targetScore, currentScore, rounds).value, h)
        <==> CeilDiv(targetScore - currentScore, Points(h)) <= rounds
    ensures var r := RemainingHands(targetScore, currentScore, rounds).value;
      forall i, j :: 0 <= i < j < |r| ==> r[i].hand != r[j].hand
  {
    RemainingHandsInDeclaredOrder(targetScore, currentScore, rounds);
    TableFittingComplete(targetScore - currentScore, rounds, h);
    TableFittingDistinct(targetScore - currentScore, rounds);
  }

  /** The order: ascending quantity, and among equal quantities the declared order. */
  lemma RemainingHandsOrder(targetScore: int, currentScore: int, rounds: int)
    requires currentScore < targetScore
    ensures var r := RemainingHands(targetScore, currentScore, rounds).value;
      forall i, j :: 0 <= i < j < |r| ==>
        r[i].quantity < r[j].quantity
        || (r[i].quantity == r[j].quantity && Rank(r[i].hand) < Rank(r[j].hand))
  {
    RemainingHandsInDeclaredOrder(targetScore, currentScore, rounds);
    TableFittingOrder(targetScore - currentScore, rounds);
  }
}
