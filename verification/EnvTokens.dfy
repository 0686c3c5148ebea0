/**
 Expanding variables that refer to each other: values as sequences of characters and references.
 The expander replaces, round after round, every known reference by the current value of its variable.
 */
module EnvTokens {

  datatype Token = Ch(c: char) | Ref(name: string)
  type Value = seq<Token>
  type Env = map<string, Value>

  function ExpandToken(m: Env, t: Token): Value {
    if t.Ref? && t.name in m then m[t.name] else [t]
  }

  /** One substitution: unknown references stay as they are. */
  function Expand(m: Env, ts: Value): Value {
    if ts == [] then [] else ExpandToken(m, ts[0]) + Expand(m, ts[1..])
  }

  /** One round: every value expanded against the values before the round. */
  function Round(m: Env): Env {
    map k | k in m :: Expand(m, m[k])
  }

  function Rounds(m: Env, n: nat): Env {
    if n == 0 then m else Round(Rounds(m, n - 1))
  }

  // ----- what a number of rounds computes -----

  /** Replacing known references by their original values, d levels deep. */
  function Unfold(m: Env, d: nat, ts: Value): Value
    decreases d, |ts|, 1
  {
    if ts == [] then [] else UnfoldToken(m, d, ts[0]) + Unfold(m, d, ts[1..])
  }

  function UnfoldToken(m: Env, d: nat, t: Token): Value
    decreases d, 0, 0
  {
    if d > 0 && t.Ref? && t.name in m then Unfold(m, d - 1, m[t.name]) else [t]
  }

  /** Twice the depth and one more per round. */
  function DepthAfter(n: nat): nat {
    if n == 0 then 0 else 2 * DepthAfter(n - 1) + 1
  }

  lemma {:induction false} UnfoldConcat(m: Env, d: nat, a: Value, b: Value)
    ensures Unfold(m, d, a + b) == Unfold(m, d, a) + Unfold(m, d, b)
  {
    hide UnfoldToken;
    if a == [] {
      assert a + b == b;
    } else {
      assert (a + b)[1..] == a[1..] + b;
      calc {
        Unfold(m, d, a + b);
        UnfoldToken(m, d, a[0]) + Unfold(m, d, a[1..] + b);
        { UnfoldConcat(m, d, a[1..], b); }
        UnfoldToken(m, d, a[0]) + (Unfold(m, d, a[1..]) + Unfold(m, d, b));
        Unfold(m, d, a) + Unfold(m, d, b);
      }
    }
  }

  lemma {:induction false} UnfoldNothing(m: Env, ts: Value)
    ensures Unfold(m, 0, ts) == ts
  {
    if ts == [] {
    } else {
      UnfoldNothing(m, ts[1..]);
    }
  }

  lemma UnfoldOne(m: Env, d: nat, t: Token)
    ensures Unfold(m, d, [t]) == UnfoldToken(m, d, t)
  {
    hide UnfoldToken;
    assert [t][1..] == [];
  }

  lemma {:induction false} ExpandIsUnfold(m: Env, ts: Value)
    ensures Expand(m, ts) == Unfold(m, 1, ts)
  {
    if ts == [] {
    } else {
      ExpandIsUnfold(m, ts[1..]);
      if ts[0].Ref? && ts[0].name in m { UnfoldNothing(m, m[ts[0].name]); }
    }
  }

  /** m' holds every value of m unfolded d levels deep. */
  ghost predicate UnfoldedBy(m: Env, d: nat, m': Env) {
    m'.Keys == m.Keys && forall k :: k in m ==> m'[k] == Unfold(m, d, m[k])
  }

  /** Each level of unfolding in the expanded variables is d + 1 levels in the original ones. */
  lemma {:induction false} UnfoldComposes(m: Env, m': Env, d: nat, e: nat, f: nat, ts: Value)
    requires UnfoldedBy(m, d, m')
    ensures Unfold(m', e, Unfold(m, f, ts)) == Unfold(m, f + e * (d + 1), ts)
    decreases e, f, |ts|, 1
  {
    hide UnfoldToken, UnfoldedBy;
    if ts == [] {
    } else {
      UnfoldTokenComposes(m, m', d, e, f, ts[0]);
      UnfoldComposes(m, m', d, e, f, ts[1..]);
      UnfoldConcat(m', e, UnfoldToken(m, f, ts[0]), Unfold(m, f, ts[1..]));
    }
  }

  lemma {:induction false} UnfoldTokenComposes(m: Env, m': Env, d: nat, e: nat, f: nat, t: Token)
    requires UnfoldedBy(m, d, m')
    ensures Unfold(m', e, UnfoldToken(m, f, t)) == UnfoldToken(m, f + e * (d + 1), t)
    decreases e, f, 0, 0
  {
    hide Unfold;
    UnfoldOne(m', e, t);
    if t.Ref? && t.name in m {
      if f > 0 {
        UnfoldComposes(m, m', d, e, f - 1, m[t.name]);
      } else if e > 0 {
        UnfoldComposes(m, m', d, e - 1, d, m[t.name]);
        assert e * (d + 1) == (e - 1) * (d + 1) + d + 1;
      }
    }
  }

  /** For every set of variables, cyclic or not: n rounds unfold each value 2^n - 1 levels deep. */
  lemma {:induction false} RoundsUnfold(m: Env, n: nat)
    ensures UnfoldedBy(m, DepthAfter(n), Rounds(m, n))
  {
    hide Unfold, Expand;
    if n == 0 {
      forall k | k in m ensures m[k] == Unfold(m, 0, m[k]) { UnfoldNothing(m, m[k]); }
    } else {
      var m', d := Rounds(m, n - 1), DepthAfter(n - 1);
      RoundsUnfold(m, n - 1);
      forall k | k in m ensures Rounds(m, n)[k] == Unfold(m, DepthAfter(n), m[k]) {
        ExpandIsUnfold(m', m'[k]);
        UnfoldComposes(m, m', d, 1, d, m[k]);
      }
    }
  }

  /** The number of rounds grows the depth past any number of variables. */
  lemma {:induction false} DepthCovers(n: nat)
    ensures DepthAfter(n) >= n
  {
    if n == 0 {
    } else {
      DepthCovers(n - 1);
    }
  }

  // ----- acyclic definitions -----

  /** Ranks witness that no chain of references returns to its start. */
  ghost predicate Ranked(m: Env, rank: map<string, nat>) {
    && (forall k :: k in m ==> k in rank)
    && (forall k, t :: k in m && t in m[k] && t.Ref? && t.name in m ==> rank[t.name] < rank[k])
  }

  ghost predicate RefsBelow(m: Env, rank: map<string, nat>, ts: Value, bound: nat)
    requires forall k :: k in m ==> k in rank
  {
    forall t :: t in ts && t.Ref? && t.name in m ==> rank[t.name] < bound
  }

  /** The full recursive meaning of a value whose known references all rank below the bound. */
  ghost function Meaning(m: Env, rank: map<string, nat>, ts: Value, bound: nat): Value
    requires Ranked(m, rank) && RefsBelow(m, rank, ts, bound)
    decreases bound, |ts|
  {
    if ts == [] then []
    else
      (if ts[0].Ref? && ts[0].name in m
       then Meaning(m, rank, m[ts[0].name], rank[ts[0].name]) else [ts[0]])
      + Meaning(m, rank, ts[1..], bound)
  }

  ghost function MeaningOf(m: Env, rank: map<string, nat>, k: string): Value
    requires Ranked(m, rank) && k in m
  {
    Meaning(m, rank, m[k], rank[k])
  }

  ghost function Below(m: Env, rank: map<string, nat>, bound: nat): set<string>
    requires forall k :: k in m ==> k in rank
  {
    set k | k in m && rank[k] < bound
  }

  lemma BelowShrinks(m: Env, rank: map<string, nat>, k: string, bound: nat)
    requires (forall x :: x in m ==> x in rank) && k in m && rank[k] < bound
    ensures |Below(m, rank, rank[k])| < |Below(m, rank, bound)|
  {
    var small, big := Below(m, rank, rank[k]), Below(m, rank, bound);
    assert small <= big - {k};
    SubsetSize(small, big - {k});
  }

  lemma SubsetSize<T>(a: set<T>, b: set<T>)
    requires a <= b
    ensures |a| <= |b|
  {
    assert |b| == |a| + |b - a| by { assert b == a + (b - a); }
  }

  /** Unfolding as deep as there are lower-ranked variables reaches the full meaning. */
  lemma {:induction false} DeepEnough(m: Env, rank: map<string, nat>, ts: Value, bound: nat, d: nat)
    requires Ranked(m, rank) && RefsBelow(m, rank, ts, bound) && d >= |Below(m, rank, bound)|
    ensures Unfold(m, d, ts) == Meaning(m, rank, ts, bound)
    decreases bound, |ts|
  {
    hide Below;
    if ts == [] {
    } else {
      DeepEnough(m, rank, ts[1..], bound, d);
      if ts[0].Ref? && ts[0].name in m {
        var k := ts[0].name;
        assert ts[0] in ts && rank[k] < bound;
        BelowShrinks(m, rank, k, bound);
        DeepEnough(m, rank, m[k], rank[k], d - 1);
        assert UnfoldToken(m, d, ts[0]) == Meaning(m, rank, m[k], rank[k]);
      } else {
        assert UnfoldToken(m, d, ts[0]) == [ts[0]];
      }
    }
  }

  lemma EnoughRounds(m: Env, rank: map<string, nat>, k: string, d: nat)
    requires Ranked(m, rank) && k in m && d >= |m|
    ensures Unfold(m, d, m[k]) == MeaningOf(m, rank, k)
  {
    SubsetSize(Below(m, rank, rank[k]), m.Keys);
    DeepEnough(m, rank, m[k], rank[k], d);
  }

  /** As many rounds as there are variables give every variable its full meaning. */
  lemma RoundsReachMeaning(m: Env, rank: map<string, nat>, k: string)
    requires Ranked(m, rank) && k in m
    ensures k in Rounds(m, |m|) && Rounds(m, |m|)[k] == MeaningOf(m, rank, k)
  {
    RoundsUnfold(m, |m|);
    DepthCovers(|m|);
    EnoughRounds(m, rank, k, DepthAfter(|m|));
  }

  lemma {:induction false} ExpandRefs(m: Env, ts: Value, t: Token)
    requires t in Expand(m, ts)
    ensures (t in ts && !(t.Ref? && t.name in m)) || exists k :: Ref(k) in ts && k in m && t in m[k]
  {
    if t in ExpandToken(m, ts[0]) {
      assert ts[0] in ts;
      if ts[0].Ref? && ts[0].name in m { assert Ref(ts[0].name) in ts; }
    } else {
      ExpandRefs(m, ts[1..], t);
    }
  }

  /** Each round keeps the definitions acyclic and keeps every variable's full meaning. */
  lemma RoundPreservesMeaning(m: Env, rank: map<string, nat>, k: string)
    requires Ranked(m, rank) && k in m
    ensures Ranked(Round(m), rank) && MeaningOf(Round(m), rank, k) == MeaningOf(m, rank, k)
  {
    hide Unfold, Expand, MeaningOf;
    var m', n := Round(m), |m|;
    RoundKeepsRanks(m, rank);
    assert UnfoldedBy(m, 1, m') by {
      forall x | x in m ensures m'[x] == Unfold(m, 1, m[x]) { ExpandIsUnfold(m, m[x]); }
    }
    assert |m'| == |m| by { assert m'.Keys == m.Keys; }
    EnoughRounds(m', rank, k, n);
    UnfoldComposes(m, m', 1, n, 1, m[k]);
    EnoughRounds(m, rank, k, 1 + n * 2);
  }

  lemma RoundKeepsRanks(m: Env, rank: map<string, nat>)
    requires Ranked(m, rank)
    ensures Ranked(Round(m), rank)
  {
    hide Expand;
    var m' := Round(m);
    forall x, t: Token | x in m' && t in m'[x] && t.Ref? && t.name in m' ensures rank[t.name] < rank[x] {
      ExpandRefs(m, m[x], t);
    }
  }

  /** No known reference is left in a full meaning. */
  lemma {:induction false} MeaningIsClosed(m: Env, rank: map<string, nat>, ts: Value, bound: nat)
    requires Ranked(m, rank) && RefsBelow(m, rank, ts, bound)
    ensures forall t :: t in Meaning(m, rank, ts, bound) && t.Ref? ==> t.name !in m
    decreases bound, |ts|
  {
    if ts == [] {
    } else {
      MeaningIsClosed(m, rank, ts[1..], bound);
      if ts[0].Ref? && ts[0].name in m {
        MeaningIsClosed(m, rank, m[ts[0].name], rank[ts[0].name]);
      }
    }
  }

  /** A value without known references means itself: text and unknown references stay as they are. */
  lemma {:induction false} ClosedMeansItself(m: Env, rank: map<string, nat>, ts: Value, bound: nat)
    requires Ranked(m, rank) && forall t :: t in ts && t.Ref? ==> t.name !in m
    ensures RefsBelow(m, rank, ts, bound) && Meaning(m, rank, ts, bound) == ts && Expand(m, ts) == ts
    decreases |ts|
  {
    if ts == [] {
    } else {
      assert ts[0] in ts && ts == [ts[0]] + ts[1..];
      ClosedMeansItself(m, rank, ts[1..], bound);
    }
  }

  /** A text's meaning is that of its parts, side by side. */
  lemma {:induction false} MeaningConcat(m: Env, rank: map<string, nat>, a: Value, b: Value, bound: nat)
    requires Ranked(m, rank) && RefsBelow(m, rank, a, bound) && RefsBelow(m, rank, b, bound)
    ensures RefsBelow(m, rank, a + b, bound)
    ensures Meaning(m, rank, a + b, bound) == Meaning(m, rank, a, bound) + Meaning(m, rank, b, bound)
    decreases |a|
  {
    hide Meaning, MeaningOf;
    if a == [] {
      assert a + b == b;
      NothingMeans(m, rank, bound);
    } else {
      assert RefsBelow(m, rank, a[1..], bound) && RefsBelow(m, rank, a + b, bound);
      assert (a + b)[1..] == a[1..] + b && (a + b)[0] == a[0];
      MeaningConcat(m, rank, a[1..], b, bound);
      var first := MeaningFirst(m, rank, a, bound);
      var same := MeaningFirst(m, rank, a + b, bound);
      assert first + (Meaning(m, rank, a[1..], bound) + Meaning(m, rank, b, bound)) ==
             (first + Meaning(m, rank, a[1..], bound)) + Meaning(m, rank, b, bound);
    }
  }

  lemma NothingMeans(m: Env, rank: map<string, nat>, bound: nat)
    requires Ranked(m, rank)
    ensures RefsBelow(m, rank, [], bound) && Meaning(m, rank, [], bound) == []
  {
  }

  lemma MeaningFirst(m: Env, rank: map<string, nat>, ts: Value, bound: nat) returns (first: Value)
    requires Ranked(m, rank) && RefsBelow(m, rank, ts, bound) && ts != []
    ensures first == if ts[0].Ref? && ts[0].name in m then MeaningOf(m, rank, ts[0].name) else [ts[0]]
    ensures RefsBelow(m, rank, ts[1..], bound)
            && Meaning(m, rank, ts, bound) == first + Meaning(m, rank, ts[1..], bound)
  {
    first := if ts[0].Ref? && ts[0].name in m then MeaningOf(m, rank, ts[0].name) else [ts[0]];
  }

  /** And a known reference means what its variable means. */
  lemma ReferenceMeans(m: Env, rank: map<string, nat>, k: string, bound: nat)
    requires Ranked(m, rank) && k in m && rank[k] < bound
    ensures RefsBelow(m, rank, [Ref(k)], bound) && Meaning(m, rank, [Ref(k)], bound) == MeaningOf(m, rank, k)
  {
    assert [Ref(k)][1..] == [];
  }

  /** Once every variable has its meaning, further rounds change nothing. */
  lemma RoundsSettle(m: Env, rank: map<string, nat>)
    requires Ranked(m, rank)
    ensures Round(Rounds(m, |m|)) == Rounds(m, |m|)
  {
    hide Expand, Meaning;
    var done := Rounds(m, |m|);
    RoundsUnfold(m, |m|);
    forall k | k in m ensures Expand(done, done[k]) == done[k] {
      RoundsReachMeaning(m, rank, k);
      MeaningIsClosed(m, rank, m[k], rank[k]);
      NothingToExpand(done, done[k]);
    }
  }

  lemma {:induction false} NothingToExpand(m: Env, ts: Value)
    requires forall t :: t in ts && t.Ref? ==> t.name !in m
    ensures Expand(m, ts) == ts
  {
    if ts == [] {
    } else {
      assert ts[0] in ts && ts == [ts[0]] + ts[1..];
      NothingToExpand(m, ts[1..]);
    }
  }
}
