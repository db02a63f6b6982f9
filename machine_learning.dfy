/** The evolutionary operators that tune the evaluator's weights: scoring a
    population by win rate, ranking it with a stable sort, keeping the
    best, single-point crossover, mutation of one gene, and assembling the
    next generation.  The random draws are parameters. */
module Evolution {

  /** Genes of a weight vector. */
  const GENES: nat := 4
  /** mutate_weights's default rate. */
  const MUTATION_RATE: real := 0.1
  /** select_top_performers's default ratio. */
  const RETAIN_RATIO: real := 0.4

  /** A weight vector, a numpy array the operators share and mutate. */
  type Genome = array<real>

  /** generate_random_weights: a new vector of four genes, the draws of
      the uniform generator on [0.1, 10). */
  method GenerateRandomWeights(draws: seq<real>) returns (w: Genome)
    requires |draws| == GENES
    ensures fresh(w) && w.Length == GENES
    ensures w[..] == draws
  {
    w := new real[GENES](i requires 0 <= i < GENES => draws[i]);
  }

  // ---------------------------------------------------------------------
  // Scoring.

  /** The first agent's share of the games won, 0 when none was played. */
  function WinRate(wins: nat, losses: nat): (r: real)
    ensures 0.0 <= r <= 1.0
    ensures wins + losses == 0 ==> r == 0.0
    ensures wins + losses > 0 ==> r * (wins + losses) as real == wins as real
  {
    if wins + losses > 0 then wins as real / (wins + losses) as real else 0.0
  }

  /** Every member with the win rate of its games, in population order. */
  function Scores<G>(population: seq<G>, games: seq<(nat, nat)>): (s: seq<(real, G)>)
    requires |games| == |population|
  {
    seq(|population|, i requires 0 <= i < |population| => (WinRate(games[i].0, games[i].1), population[i]))
  }

  /** Non-increasing by score. */
  ghost predicate SortedByScore<G>(s: seq<(real, G)>) {
    forall i, j :: 0 <= i < j < |s| ==> s[i].0 >= s[j].0
  }

  /** The entries of s with score r, in their order in s. */
  function WithScore<G>(s: seq<(real, G)>, r: real): seq<(real, G)> {
    if s == [] then []
    else (if s[0].0 == r then [s[0]] else []) + WithScore(s[1..], r)
  }

  /** x placed before the first entry scoring strictly less. */
  function Insert<G>(s: seq<(real, G)>, x: (real, G)): seq<(real, G)> {
    if s == [] then [x]
    else if s[0].0 < x.0 then [x] + s
    else [s[0]] + Insert(s[1..], x)
  }

  /** sorted(scores, key=lambda x: -x[0]): a stable sort by decreasing
      score, here by insertion in population order. */
  function RankByScore<G>(s: seq<(real, G)>): seq<(real, G)> {
    if s == [] then [] else Insert(RankByScore(s[..|s| - 1]), s[|s| - 1])
  }

  lemma {:induction false} WithScoreConcat<G>(a: seq<(real, G)>, b: seq<(real, G)>, r: real)
    ensures WithScore(a + b, r) == WithScore(a, r) + WithScore(b, r)
  {
    if a == [] {
      assert a + b == b;
    } else {
      assert (a + b)[1..] == a[1..] + b;
      WithScoreConcat(a[1..], b, r);
    }
  }

  /** A sorted list whose first score is below r has no entry scoring r. */
  lemma {:induction false} NoneWithHigherScore<G>(s: seq<(real, G)>, r: real)
    requires SortedByScore(s) && s != [] && s[0].0 < r
    ensures WithScore(s, r) == []
  {
    if |s| > 1 {
      NoneWithHigherScore(s[1..], r);
    }
  }

  /** Inserting x adds x to the multiset of entries. */
  lemma {:induction false} InsertMultiset<G>(s: seq<(real, G)>, x: (real, G))
    ensures multiset(Insert(s, x)) == multiset(s) + multiset{x}
  {
    if s != [] && s[0].0 >= x.0 {
      InsertMultiset(s[1..], x);
      assert s == [s[0]] + s[1..];
    }
  }

  /** Inserting x into a sorted list keeps it sorted. */
  lemma {:induction false} InsertSorted<G>(s: seq<(real, G)>, x: (real, G))
    requires SortedByScore(s)
    ensures SortedByScore(Insert(s, x))
  {
    if s != [] && s[0].0 >= x.0 {
      InsertSorted(s[1..], x);
      InsertMultiset(s[1..], x);
      var t := Insert(s[1..], x);
      forall y | y in t ensures y.0 <= s[0].0 {
        assert y in multiset(t);
        if y != x {
          assert y in s[1..];
        }
      }
      forall i, j | 0 <= i < j < |[s[0]] + t| ensures ([s[0]] + t)[i].0 >= ([s[0]] + t)[j].0 {
        if i == 0 {
          assert ([s[0]] + t)[j] == t[j - 1] && t[j - 1] in t;
        }
      }
    }
  }

  /** Inserting x into a sorted list puts x after every entry with the same score. */
  lemma {:induction false} InsertKeepsOrder<G>(s: seq<(real, G)>, x: (real, G), r: real)
    requires SortedByScore(s)
    ensures WithScore(Insert(s, x), r) == WithScore(s, r) + WithScore([x], r)
  {
    if s == [] {
    } else if s[0].0 < x.0 {
      if x.0 == r {
        NoneWithHigherScore(s, r);
      }
      WithScoreConcat([x], s, r);
    } else {
      InsertKeepsOrder(s[1..], x, r);
      assert s == [s[0]] + s[1..];
      WithScoreConcat([s[0]], Insert(s[1..], x), r);
      WithScoreConcat([s[0]], s[1..], r);
    }
  }

  /** The ranking is sorted by decreasing score, holds the same entries,
      and keeps the population order among entries of equal score. */
  lemma {:induction false} RankByScoreSpec<G>(s: seq<(real, G)>, r: real)
    ensures SortedByScore(RankByScore(s))
    ensures multiset(RankByScore(s)) == multiset(s)
    ensures WithScore(RankByScore(s), r) == WithScore(s, r)
    decreases |s|
  {
    if s != [] {
      var init, last := s[..|s| - 1], s[|s| - 1];
      RankByScoreSpec(init, r);
      InsertSorted(RankByScore(init), last);
      InsertMultiset(RankByScore(init), last);
      InsertKeepsOrder(RankByScore(init), last, r);
      assert s == init + [last];
      WithScoreConcat(init, [last], r);
    }
  }

  /** A list sorted by decreasing score is determined by its per-score
      sublists, so any stable sort by score gives the ranking above. */
  lemma {:induction false} StableSortIsUnique<G>(a: seq<(real, G)>, b: seq<(real, G)>)
    requires SortedByScore(a) && SortedByScore(b)
    requires forall r :: WithScore(a, r) == WithScore(b, r)
    ensures a == b
    decreases |a| + |b|
  {
    if a == [] || b == [] {
      if a != [] {
        var t := WithScore(a, a[0].0);
        assert false;
      } else if b != [] {
        var t := WithScore(b, b[0].0);
        assert false;
      }
    } else {
      if a[0].0 < b[0].0 {
        NoneWithHigherScore(a, b[0].0);
        var t := WithScore(b, b[0].0);
        assert false;
      } else if b[0].0 < a[0].0 {
        NoneWithHigherScore(b, a[0].0);
        var t := WithScore(a, a[0].0);
        assert false;
      } else {
        var r0 := a[0].0;
        assert a[0] == WithScore(a, r0)[0] == WithScore(b, r0)[0] == b[0];
        forall r ensures WithScore(a[1..], r) == WithScore(b[1..], r) {
          assert WithScore(a, r) == WithScore(b, r);
          if a[0].0 == r {
            assert WithScore(a, r) == [a[0]] + WithScore(a[1..], r);
            assert WithScore(b, r) == [b[0]] + WithScore(b[1..], r);
            assert WithScore(a, r)[1..] == WithScore(a[1..], r);
            assert WithScore(b, r)[1..] == WithScore(b[1..], r);
          } else {
            assert WithScore(a, r) == [] + WithScore(a[1..], r) == WithScore(a[1..], r);
            assert WithScore(b, r) == [] + WithScore(b[1..], r) == WithScore(b[1..], r);
          }
        }
        StableSortIsUnique(a[1..], b[1..]);
        assert a == [a[0]] + a[1..] && b == [b[0]] + b[1..];
      }
    }
  }

  /** evaluate_population: the self-play results of each member against a
      random opponent (games[i] for population[i]) become win rates, and
      the scored members are ranked by decreasing win rate. */
  method EvaluatePopulation<G>(population: seq<G>, games: seq<(nat, nat)>) returns (ranked: seq<(real, G)>)
    requires |games| == |population|
    ensures ranked == RankByScore(Scores(population, games))
    ensures multiset(ranked) == multiset(Scores(population, games))
    ensures SortedByScore(ranked)
    ensures forall i :: 0 <= i < |ranked| ==> 0.0 <= ranked[i].0 <= 1.0
  {
    var scores: seq<(real, G)> := [];
    for k := 0 to |population|
      invariant scores == Scores(population[..k], games[..k])
    {
      var (wins, losses) := games[k];
      var winRate := WinRate(wins, losses);
      scores := scores + [(winRate, population[k])];
    }
    assert population[..|population|] == population && games[..|games|] == games;
    ranked := RankByScore(scores);
    RankByScoreSpec(scores, 0.0);
    forall i | 0 <= i < |ranked| ensures 0.0 <= ranked[i].0 <= 1.0 {
      assert ranked[i] in multiset(scores);
    }
  }

  // ---------------------------------------------------------------------
  // Selection.

  /** Python's int() of a real: truncation toward zero. */
  function Truncate(x: real): (n: int)
    ensures x >= 0.0 ==> n as real <= x < n as real + 1.0
    ensures x < 0.0 ==> n as real - 1.0 < x <= n as real
  {
    if x >= 0.0 then x.Floor else -((-x).Floor)
  }

  /** How many members select_top_performers keeps: max(2, int(len * ratio)). */
  function RetainLength(n: nat, ratio: real): int {
    var k := Truncate(n as real * ratio);
    if k > 2 then k else 2
  }

  /** select_top_performers: the weights of the first RetainLength entries, or of all when fewer. */
  function SelectTopPerformers<G>(ranked: seq<(real, G)>, ratio: real): (top: seq<G>)
    ensures |top| == if RetainLength(|ranked|, ratio) < |ranked| then RetainLength(|ranked|, ratio) else |ranked|
  {
    var n := if RetainLength(|ranked|, ratio) < |ranked| then RetainLength(|ranked|, ratio) else |ranked|;
    seq(n, i requires 0 <= i < n => ranked[i].1)
  }

  /** The survivors are the leading members of the ranking, in its order,
      and at least two are kept when there are two; none ranked lower
      scores more than a survivor. */
  lemma TopPerformersLead<G>(ranked: seq<(real, G)>, ratio: real)
    requires SortedByScore(ranked)
    ensures var top := SelectTopPerformers(ranked, ratio);
            |top| <= |ranked| && (|ranked| >= 2 ==> |top| >= 2) &&
            (forall i :: 0 <= i < |top| ==> top[i] == ranked[i].1) &&
            forall i, j :: 0 <= i < |top| <= j < |ranked| ==> ranked[i].0 >= ranked[j].0
  {}

  /** With the default ratio a population of 50 keeps 20, one of 10 keeps 4, and one of 4 keeps 2. */
  lemma DefaultRetainLengths()
    ensures RetainLength(50, RETAIN_RATIO) == 20
    ensures RetainLength(10, RETAIN_RATIO) == 4
    ensures RetainLength(4, RETAIN_RATIO) == 2
  {
    assert (50 as real * RETAIN_RATIO).Floor == 20;
    assert (10 as real * RETAIN_RATIO).Floor == 4;
    assert (4 as real * RETAIN_RATIO).Floor == 1;
  }

  // ---------------------------------------------------------------------
  // Mutation and crossover.

  /** A gene multiplied by a mutation factor. */
  function Scale(gene: real, factor: real): real {
    gene * factor
  }

  /** The genes after mutate_weights: when the coin falls below the rate,
      gene idx is multiplied by the factor. */
  function Mutated(w: seq<real>, coin: real, idx: int, factor: real, rate: real): seq<real>
    requires coin < rate ==> 0 <= idx < |w|
  {
    if coin < rate then w[idx := Scale(w[idx], factor)] else w
  }

  /** Mutation keeps the length, changes gene idx at most, and only when
      the coin falls below the rate; a factor in [0.8, 1.2] keeps a
      non-negative gene within 20% of its value. */
  lemma MutationChangesAtMostOne(w: seq<real>, coin: real, idx: int, factor: real, rate: real)
    requires coin < rate ==> 0 <= idx < |w|
    ensures var m := Mutated(w, coin, idx, factor, rate);
            |m| == |w| && (coin >= rate ==> m == w) &&
            (forall i :: 0 <= i < |w| && i != idx ==> m[i] == w[i]) &&
            (coin < rate && 0.8 <= factor <= 1.2 && w[idx] >= 0.0 ==> 0.8 * w[idx] <= m[idx] <= 1.2 * w[idx])
  {
    if coin < rate && 0.8 <= factor <= 1.2 && w[idx] >= 0.0 {
      assert Mutated(w, coin, idx, factor, rate)[idx] == w[idx] * factor;
      assert 0.8 * w[idx] <= w[idx] * factor <= 1.2 * w[idx] by {
        assert w[idx] * factor - 0.8 * w[idx] == w[idx] * (factor - 0.8);
        assert 1.2 * w[idx] - w[idx] * factor == w[idx] * (1.2 - factor);
      }
    }
  }

  /** mutate_weights, in place; the array itself is returned. */
  method MutateWeights(weights: Genome, coin: real, idx: int, factor: real, rate: real) returns (result: Genome)
    requires coin < rate ==> 0 <= idx < weights.Length
    modifies weights
    ensures result == weights
    ensures weights[..] == Mutated(old(weights[..]), coin, idx, factor, rate)
  {
    if coin < rate {
      weights[idx] := Scale(weights[idx], factor);
    }
    result := weights;
  }

  /** The length of a child spliced at split from parents of lengths n1 and n2. */
  function ChildLength(n1: nat, n2: nat, split: nat): nat {
    split + if split <= n2 then n2 - split else 0
  }

  /** np.concatenate([p1[:split], p2[split:]]); a split beyond p2 takes nothing of it. */
  function Spliced(p1: seq<real>, p2: seq<real>, split: nat): (c: seq<real>)
    requires split <= |p1|
    ensures |c| == ChildLength(|p1|, |p2|, split)
  {
    p1[..split] + p2[if split <= |p2| then split else |p2|..]
  }

  /** The spliced genes come from the first parent before the split and
      from the second from it on; parents of one length give a child of
      that length. */
  lemma SplicedGenes(p1: seq<real>, p2: seq<real>, split: nat)
    requires split <= |p1|
    ensures var c := Spliced(p1, p2, split);
            (forall i :: 0 <= i < split ==> c[i] == p1[i]) &&
            (forall i :: split <= i < |c| ==> c[i] == p2[i]) &&
            (|p1| == |p2| ==> |c| == |p1|)
  {}

  /** The draws one child takes: the two parents, the split point, the
      mutation coin, the mutated gene and its factor. */
  datatype Draw = Draw(first: nat, second: nat, split: nat, coin: real, gene: nat, factor: real)

  /** The child crossover builds from the genes of its parents. */
  function Offspring(p1: seq<real>, p2: seq<real>, d: Draw): seq<real>
    requires 1 <= d.split < |p1|
    requires d.coin < MUTATION_RATE ==> d.gene < ChildLength(|p1|, |p2|, d.split)
  {
    Mutated(Spliced(p1, p2, d.split), d.coin, d.gene, d.factor, MUTATION_RATE)
  }

  /** crossover: a new array spliced from the parents, then mutated; the
      parents are not changed. */
  method Crossover(parent1: Genome, parent2: Genome, d: Draw) returns (child: Genome)
    requires 1 <= d.split < parent1.Length
    requires d.coin < MUTATION_RATE ==> d.gene < ChildLength(parent1.Length, parent2.Length, d.split)
    ensures fresh(child)
    ensures child[..] == Offspring(parent1[..], parent2[..], d)
  {
    var spliced := Spliced(parent1[..], parent2[..], d.split);
    child := new real[|spliced|](i requires 0 <= i < |spliced| => spliced[i]);
    assert child[..] == spliced;
    child := MutateWeights(child, d.coin, d.gene, d.factor, MUTATION_RATE);
  }

  /** The draw d can breed from the survivors: two different members, a
      split strictly inside the first, and a mutated gene inside the child. */
  predicate Breeds(selected: seq<Genome>, d: Draw) {
    d.first < |selected| && d.second < |selected| && d.first != d.second &&
    1 <= d.split < selected[d.first].Length &&
    (d.coin < MUTATION_RATE ==> d.gene < ChildLength(selected[d.first].Length, selected[d.second].Length, d.split))
  }

  /** generate_next_generation: the survivors themselves, then children
      bred with the draws in turn until the population size is reached. */
  method GenerateNextGeneration(selected: seq<Genome>, populationSize: int, draws: seq<Draw>)
    returns (next: seq<Genome>)
    requires |draws| >= populationSize - |selected|
    requires forall k :: 0 <= k < populationSize - |selected| ==> Breeds(selected, draws[k])
    ensures |next| == if populationSize > |selected| then populationSize else |selected|
    ensures next[..|selected|] == selected
    ensures forall j :: 0 <= j < |next| - |selected| ==> fresh(next[|selected|..][j])
    ensures forall j :: 0 <= j < |next| - |selected| ==>
              Breeds(selected, draws[j]) &&
              next[|selected|..][j][..] == Offspring(selected[draws[j].first][..], selected[draws[j].second][..], draws[j])
  {
    next := selected;
    while |next| < populationSize
      invariant |selected| <= |next| <= if populationSize > |selected| then populationSize else |selected|
      invariant next[..|selected|] == selected
      invariant forall j :: 0 <= j < |next| - |selected| ==> fresh(next[|selected|..][j])
      invariant forall j :: 0 <= j < |next| - |selected| ==>
                  Breeds(selected, draws[j]) &&
                  next[|selected|..][j][..] == Offspring(selected[draws[j].first][..], selected[draws[j].second][..], draws[j])
      decreases populationSize - |next|
    {
      var d := draws[|next| - |selected|];
      var parent1, parent2 := selected[d.first], selected[d.second];
      var child := Crossover(parent1, parent2, d);
      ghost var bred := next[|selected|..];
      next := next + [child];
      assert next[|selected|..] == bred + [child];
    }
  }

  /** Parents of GENES genes breed children of GENES genes, so a
      generation bred from such survivors holds only such vectors. */
  lemma OffspringKeepsLength(p1: seq<real>, p2: seq<real>, d: Draw)
    requires |p1| == |p2| == GENES && 1 <= d.split < |p1|
    requires d.coin < MUTATION_RATE ==> d.gene < ChildLength(|p1|, |p2|, d.split)
    ensures |Offspring(p1, p2, d)| == GENES
    ensures forall i :: 0 <= i < GENES && (d.coin >= MUTATION_RATE || i != d.gene) ==>
              Offspring(p1, p2, d)[i] == if i < d.split then p1[i] else p2[i]
  {
    SplicedGenes(p1, p2, d.split);
    MutationChangesAtMostOne(Spliced(p1, p2, d.split), d.coin, d.gene, d.factor, MUTATION_RATE);
  }
}
