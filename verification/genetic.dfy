/** A genetic algorithm for the OneMax problem: chromosomes are lists of 0/1
    genes, fitness counts the ones, parents come from 3-way tournaments,
    children from single-point crossover and bit-flip mutation, and the
    fittest chromosome of each generation survives into the next.  Every
    random draw is an input here. */
module OneMax {

  import opened Common

  type Chromosome = seq<int>

  function Max0(x: int): nat
  {
    if x > 0 then x else 0
  }

  /** Every gene is 0 or 1. */
  ghost predicate Binary(c: Chromosome)
  {
    forall i :: 0 <= i < |c| ==> c[i] == 0 || c[i] == 1
  }

  /** Every member is binary. */
  ghost predicate AllBinary(population: seq<Chromosome>)
  {
    forall i :: 0 <= i < |population| ==> Binary(population[i])
  }

  lemma AllBinaryAppend(population: seq<Chromosome>, c: Chromosome)
    requires AllBinary(population) && Binary(c)
    ensures AllBinary(population + [c])
  {
    assert forall i :: 0 <= i < |population| ==> (population + [c])[i] == population[i];
  }

  /** The fitness: the sum of the genes. */
  function Fitness(c: Chromosome): int
  {
    if c == [] then 0 else Fitness(c[..|c| - 1]) + c[|c| - 1]
  }

  /** The number of genes equal to 1. */
  function Ones(c: Chromosome): (n: nat)
    ensures n <= |c|
  {
    if c == [] then 0 else Ones(c[..|c| - 1]) + (if c[|c| - 1] == 1 then 1 else 0)
  }

  /** On a binary chromosome the fitness is the number of ones. */
  lemma {:induction false} FitnessCountsOnes(c: Chromosome)
    requires Binary(c)
    ensures Fitness(c) == Ones(c) && 0 <= Fitness(c) <= |c|
  {
    if c != [] {
      assert Binary(c[..|c| - 1]);
      FitnessCountsOnes(c[..|c| - 1]);
    }
  }

  /** Fitness adds up over the two parts of a chromosome. */
  lemma {:induction false} FitnessOfConcat(a: Chromosome, b: Chromosome)
    ensures Fitness(a + b) == Fitness(a) + Fitness(b)
    decreases |b|
  {
    if b == [] {
      assert a + b == a;
    } else {
      assert (a + b)[..|a + b| - 1] == a + b[..|b| - 1];
      FitnessOfConcat(a, b[..|b| - 1]);
    }
  }

  lemma FitnessOfSplit(c: Chromosome, k: nat)
    requires k <= |c|
    ensures Fitness(c) == Fitness(c[..k]) + Fitness(c[k..])
  {
    assert c == c[..k] + c[k..];
    FitnessOfConcat(c[..k], c[k..]);
  }

  /** The position of the first largest value, as `s.index(max(s))`. */
  function ArgMaxFirst(s: seq<int>): (k: nat)
    requires |s| > 0
    ensures k < |s|
    ensures forall j :: 0 <= j < |s| ==> s[j] <= s[k]
    ensures forall j :: 0 <= j < k ==> s[j] < s[k]
  {
    if |s| == 1 then 0
    else
      var k' := ArgMaxFirst(s[..|s| - 1]);
      if s[|s| - 1] > s[k'] then |s| - 1 else k'
  }

  /** The fitness of each member of a population, in order. */
  function Fitnesses(population: seq<Chromosome>): (fs: seq<int>)
    ensures |fs| == |population| && forall i :: 0 <= i < |population| ==> fs[i] == Fitness(population[i])
  {
    seq(|population|, i requires 0 <= i < |population| => Fitness(population[i]))
  }

  /** The largest fitness in a non-empty population. */
  function Best(population: seq<Chromosome>): int
    requires |population| > 0
    decreases |population|
  {
    if |population| == 1 then Fitness(population[0])
    else
      var best := Best(population[..|population| - 1]);
      var last := Fitness(population[|population| - 1]);
      if last > best then last else best
  }

  /** The best fitness is at least that of any member. */
  lemma {:induction false} BestBounds(population: seq<Chromosome>, i: nat)
    requires i < |population|
    ensures Fitness(population[i]) <= Best(population)
    decreases |population|
  {
    if i < |population| - 1 {
      var init := population[..|population| - 1];
      BestBounds(init, i);
      assert init[i] == population[i];
    }
  }

  /** The best fitness is that of some member. */
  lemma {:induction false} BestAttained(population: seq<Chromosome>) returns (i: nat)
    requires |population| > 0
    ensures i < |population| && Best(population) == Fitness(population[i])
    decreases |population|
  {
    if |population| == 1 {
      i := 0;
    } else {
      var init := population[..|population| - 1];
      var j := BestAttained(init);
      assert init[j] == population[j];
      i := if Fitness(population[|population| - 1]) > Best(init) then |population| - 1 else j;
    }
  }

  /** The best fitness is the fitness of the member the program picks: the
      first whose fitness is largest. */
  lemma BestIsFirstFittest(population: seq<Chromosome>)
    requires |population| > 0
    ensures Best(population) == Fitnesses(population)[ArgMaxFirst(Fitnesses(population))]
  {
    var fs := Fitnesses(population);
    var k := ArgMaxFirst(fs);
    BestBounds(population, k);
    var i := BestAttained(population);
    assert fs[i] <= fs[k];
  }

  ghost predicate NonDecreasing(s: seq<int>)
  {
    forall g, h :: 0 <= g < h < |s| ==> s[g] <= s[h]
  }

  lemma NonDecreasingAppend(s: seq<int>, x: int)
    requires NonDecreasing(s) && |s| > 0 && s[|s| - 1] <= x
    ensures NonDecreasing(s + [x])
  {
  }

  /** Elitism: a population that starts with the first fittest member of
      `current` is at least as fit at its best. */
  lemma EliteKeepsBest(current: seq<Chromosome>, next: seq<Chromosome>)
    requires |current| > 0 && |next| > 0
    requires next[0] == current[ArgMaxFirst(Fitnesses(current))]
    ensures Best(current) <= Best(next)
  {
    BestIsFirstFittest(current);
    BestBounds(next, 0);
  }

  /** The position within a tournament of its winner: a largest fitness
      among the sampled indices, the first such in sample order. */
  function WinnerPosition(fitnesses: seq<int>, tournament: seq<nat>): (k: nat)
    requires |tournament| > 0 && forall j :: 0 <= j < |tournament| ==> tournament[j] < |fitnesses|
    ensures k < |tournament|
    decreases |tournament|
  {
    if |tournament| == 1 then 0
    else
      var k' := WinnerPosition(fitnesses, tournament[..|tournament| - 1]);
      if fitnesses[tournament[|tournament| - 1]] > fitnesses[tournament[k']] then |tournament| - 1 else k'
  }

  /** No sampled index has a larger fitness than the winner's, and every
      one sampled before it has a strictly smaller one. */
  lemma {:induction false} WinnerPositionIsFittest(fitnesses: seq<int>, tournament: seq<nat>)
    requires |tournament| > 0 && forall j :: 0 <= j < |tournament| ==> tournament[j] < |fitnesses|
    ensures var k := WinnerPosition(fitnesses, tournament);
            forall j :: 0 <= j < |tournament| ==> fitnesses[tournament[j]] <= fitnesses[tournament[k]]
    ensures var k := WinnerPosition(fitnesses, tournament);
            forall j :: 0 <= j < k ==> fitnesses[tournament[j]] < fitnesses[tournament[k]]
    decreases |tournament|
  {
    if |tournament| > 1 {
      var init := tournament[..|tournament| - 1];
      WinnerPositionIsFittest(fitnesses, init);
      assert forall j :: 0 <= j < |init| ==> init[j] == tournament[j];
    }
  }

  /** A draw of `random.sample(range(n), 3)`: three different indices below `n`. */
  ghost predicate Tournament(t: seq<nat>, n: int)
  {
    |t| == 3 && (forall j :: 0 <= j < |t| ==> t[j] < n) && t[0] != t[1] && t[0] != t[2] && t[1] != t[2]
  }

  /** Single-point crossover when `cross` was drawn: the first `point` genes
      from one parent and the rest from the other; otherwise copies. */
  function Crossover(parent1: Chromosome, parent2: Chromosome, cross: bool, point: nat): (children: (Chromosome, Chromosome))
    requires |parent1| == |parent2| && (cross ==> point <= |parent1|)
    ensures |children.0| == |parent1| && |children.1| == |parent2|
    ensures forall i :: 0 <= i < |parent1| ==>
              children.0[i] == (if cross && i < point then parent1[i] else if cross then parent2[i] else parent1[i]) &&
              children.1[i] == (if cross && i < point then parent2[i] else if cross then parent1[i] else parent2[i])
  {
    if cross then
      (parent1[..point] + parent2[point..], parent2[..point] + parent1[point..])
    else
      (parent1, parent2)
  }

  /** Binary parents give binary children. */
  lemma CrossoverKeepsBinary(parent1: Chromosome, parent2: Chromosome, cross: bool, point: nat)
    requires |parent1| == |parent2| && (cross ==> point <= |parent1|)
    requires Binary(parent1) && Binary(parent2)
    ensures Binary(Crossover(parent1, parent2, cross, point).0) && Binary(Crossover(parent1, parent2, cross, point).1)
  {
  }

  /** Crossover neither creates nor loses ones: the children's fitnesses add
      up to the parents'. */
  lemma CrossoverKeepsFitness(parent1: Chromosome, parent2: Chromosome, cross: bool, point: nat)
    requires |parent1| == |parent2| && (cross ==> point <= |parent1|)
    ensures var children := Crossover(parent1, parent2, cross, point);
            Fitness(children.0) + Fitness(children.1) == Fitness(parent1) + Fitness(parent2)
  {
    if cross {
      FitnessOfSplit(parent1, point);
      FitnessOfSplit(parent2, point);
      FitnessOfConcat(parent1[..point], parent2[point..]);
      FitnessOfConcat(parent2[..point], parent1[point..]);
    }
  }

  /** `c` with gene `i` flipped wherever `mask[i]` was drawn. */
  function Flip(c: Chromosome, mask: seq<bool>): (r: Chromosome)
    requires |mask| == |c|
    ensures |r| == |c|
  {
    seq(|c|, i requires 0 <= i < |c| => if mask[i] then 1 - c[i] else c[i])
  }

  /** Mutation keeps genes binary. */
  lemma FlipKeepsBinary(c: Chromosome, mask: seq<bool>)
    requires |mask| == |c| && Binary(c)
    ensures Binary(Flip(c, mask))
  {
  }

  /** On a binary chromosome mutation changes exactly the masked genes. */
  lemma FlipChangesMasked(c: Chromosome, mask: seq<bool>)
    requires |mask| == |c| && Binary(c)
    ensures forall i :: 0 <= i < |c| ==> (Flip(c, mask)[i] != c[i] <==> mask[i])
  {
  }

  /** Flipping again with the same mask restores the chromosome. */
  lemma FlipTwice(c: Chromosome, mask: seq<bool>)
    requires |mask| == |c|
    ensures Flip(Flip(c, mask), mask) == c
  {
  }

  /** What one pass of the breeding loop draws: two tournaments, whether to
      cross and where, and which genes of each child flip. */
  datatype Draw = Draw(tournaments: seq<seq<nat>>, cross: bool, point: nat, mask1: seq<bool>, mask2: seq<bool>)

  /** A draw as the random source can make it for `n` members of length `len`. */
  ghost predicate Drawable(d: Draw, n: int, len: int)
  {
    |d.tournaments| == 2 && Tournament(d.tournaments[0], n) && Tournament(d.tournaments[1], n) &&
    (d.cross && len >= 2 ==> 1 <= d.point <= len - 1) &&
    |d.mask1| == Max0(len) && |d.mask2| == Max0(len)
  }

  /** Every member has `len` genes. */
  ghost predicate Uniform(population: seq<Chromosome>, len: nat)
  {
    forall i :: 0 <= i < |population| ==> |population[i]| == len
  }

  /** A draw the breeding loop completes on `n` members of `len` genes: its
      tournaments index the population, a drawn crossover has its point in
      1 .. len - 1, and each mask covers one chromosome. */
  ghost predicate Fits(d: Draw, n: nat, len: nat)
  {
    |d.tournaments| == 2 && Tournament(d.tournaments[0], n) && Tournament(d.tournaments[1], n) &&
    (d.cross ==> 1 <= d.point <= len - 1) && |d.mask1| == len && |d.mask2| == len
  }

  /** A drawable draw fits unless it crosses chromosomes shorter than two genes. */
  lemma DrawsFit(draws: seq<Draw>, size: int, len: int, k: nat)
    requires k <= |draws| && forall j :: 0 <= j < k ==> Drawable(draws[j], size, len)
    requires forall j :: 0 <= j < k ==> !(draws[j].cross && len < 2)
    ensures forall j :: 0 <= j < k ==> Fits(draws[j], Max0(size), Max0(len))
  {
  }

  /** The member that wins tournament `t`. */
  function Winner(population: seq<Chromosome>, t: seq<nat>): Chromosome
    requires Tournament(t, |population|)
  {
    population[t[WinnerPosition(Fitnesses(population), t)]]
  }

  /** The winner of a tournament is one of its sampled members, and none of
      them is fitter. */
  lemma WinnerIsFittest(population: seq<Chromosome>, t: seq<nat>)
    requires Tournament(t, |population|)
    ensures exists j :: 0 <= j < |t| && Winner(population, t) == population[t[j]]
    ensures forall j :: 0 <= j < |t| ==> Fitness(population[t[j]]) <= Fitness(Winner(population, t))
  {
    var fs := Fitnesses(population);
    var k := WinnerPosition(fs, t);
    WinnerPositionIsFittest(fs, t);
    assert Winner(population, t) == population[t[k]];
  }

  /** The two children one draw breeds: the winners of its two tournaments,
      crossed over and then mutated. */
  function Children(population: seq<Chromosome>, d: Draw, len: nat): (children: (Chromosome, Chromosome))
    requires Uniform(population, len) && Fits(d, |population|, len)
    ensures |children.0| == len && |children.1| == len
  {
    var crossed := Crossover(Winner(population, d.tournaments[0]), Winner(population, d.tournaments[1]), d.cross, d.point);
    (Flip(crossed.0, d.mask1), Flip(crossed.1, d.mask2))
  }

  /** The members of a list of pairs, two per pair, in order. */
  function Flatten<T>(pairs: seq<(T, T)>): (s: seq<T>)
    ensures |s| == 2 * |pairs|
  {
    if pairs == [] then []
    else Flatten(pairs[..|pairs| - 1]) + [pairs[|pairs| - 1].0, pairs[|pairs| - 1].1]
  }

  /** Appending a pair appends its two members. */
  lemma FlattenSnoc<T>(pairs: seq<(T, T)>, p: (T, T))
    ensures Flatten(pairs + [p]) == Flatten(pairs) + [p.0, p.1]
  {
    assert (pairs + [p])[..|pairs|] == pairs;
  }

  /** Pair `j` supplies members `2j` and `2j + 1` of a flattened list. */
  lemma {:induction false} FlattenMember<T>(pairs: seq<(T, T)>, j: nat)
    requires j < |pairs|
    ensures Flatten(pairs)[2 * j] == pairs[j].0 && Flatten(pairs)[2 * j + 1] == pairs[j].1
    decreases |pairs|
  {
    var init := pairs[..|pairs| - 1];
    if j < |init| {
      FlattenMember(init, j);
      assert init[j] == pairs[j];
    }
  }

  /** Behind a first member `head`, pair `j` supplies members `2j + 1` and
      `2j + 2` of a list cut to `size` members. */
  lemma HeadedMember<T>(head: T, pairs: seq<(T, T)>, size: nat, j: nat)
    requires j < |pairs| && size <= 1 + 2 * |pairs| && 2 * j + 1 < size
    ensures ([head] + Flatten(pairs))[..size][2 * j + 1] == pairs[j].0
    ensures 2 * j + 2 < size ==> ([head] + Flatten(pairs))[..size][2 * j + 2] == pairs[j].1
  {
    FlattenMember(pairs, j);
    var flat := Flatten(pairs);
    var cut := ([head] + flat)[..size];
    assert cut[2 * j + 1] == flat[2 * j];
    if 2 * j + 2 < size {
      assert cut[2 * j + 2] == flat[2 * j + 1];
    }
  }

  /** Pairs of chromosomes of `len` genes flatten to chromosomes of `len` genes. */
  lemma {:induction false} FlattenUniform(pairs: seq<(Chromosome, Chromosome)>, len: nat)
    requires forall j :: 0 <= j < |pairs| ==> |pairs[j].0| == len && |pairs[j].1| == len
    ensures Uniform(Flatten(pairs), len)
    decreases |pairs|
  {
    if pairs != [] {
      var init := pairs[..|pairs| - 1];
      assert forall j :: 0 <= j < |init| ==> init[j] == pairs[j];
      FlattenUniform(init, len);
    }
  }

  /** The children of the first `k` draws, one pair per draw. */
  function Broods(population: seq<Chromosome>, draws: seq<Draw>, len: nat, k: nat): (broods: seq<(Chromosome, Chromosome)>)
    requires Uniform(population, len) && k <= |draws|
    requires forall j :: 0 <= j < k ==> Fits(draws[j], |population|, len)
    ensures |broods| == k
  {
    if k == 0 then []
    else Broods(population, draws, len, k - 1) + [Children(population, draws[k - 1], len)]
  }

  /** Pair `j` holds the children of draw `j`. */
  lemma {:induction false} BroodsMember(population: seq<Chromosome>, draws: seq<Draw>, len: nat, k: nat, j: nat)
    requires Uniform(population, len) && k <= |draws|
    requires forall m :: 0 <= m < k ==> Fits(draws[m], |population|, len)
    requires j < k
    ensures Broods(population, draws, len, k)[j] == Children(population, draws[j], len)
    decreases k
  {
    var earlier, last := Broods(population, draws, len, k - 1), Children(population, draws[k - 1], len);
    assert Broods(population, draws, len, k) == earlier + [last];
    if j < k - 1 {
      BroodsMember(population, draws, len, k - 1, j);
      assert (earlier + [last])[j] == earlier[j];
    }
  }

  /** Every child bred has `len` genes. */
  lemma BroodsUniform(population: seq<Chromosome>, draws: seq<Draw>, len: nat, k: nat)
    requires Uniform(population, len) && k <= |draws|
    requires forall m :: 0 <= m < k ==> Fits(draws[m], |population|, len)
    ensures forall j :: 0 <= j < k ==>
              |Broods(population, draws, len, k)[j].0| == len && |Broods(population, draws, len, k)[j].1| == len
  {
    forall j | 0 <= j < k
      ensures |Broods(population, draws, len, k)[j].0| == len && |Broods(population, draws, len, k)[j].1| == len
    {
      BroodsMember(population, draws, len, k, j);
    }
  }

  /** Mutated crossover children of the two tournament winners of a draw
      are that draw's children. */
  lemma OffspringAreChildren(population: seq<Chromosome>, d: Draw, len: nat, parent1: Chromosome, parent2: Chromosome,
                             child1: Chromosome, child2: Chromosome)
    requires Uniform(population, len) && Fits(d, |population|, len)
    requires parent1 == population[d.tournaments[0][WinnerPosition(Fitnesses(population), d.tournaments[0])]]
    requires parent2 == population[d.tournaments[1][WinnerPosition(Fitnesses(population), d.tournaments[1])]]
    requires child1 == Flip(Crossover(parent1, parent2, d.cross, d.point).0, d.mask1)
    requires child2 == Flip(Crossover(parent1, parent2, d.cross, d.point).1, d.mask2)
    ensures (child1, child2) == Children(population, d, len)
  {
  }

  /** The next generation: the elite first, then the children of successive
      draws until there are `size` members; for an even `size` the second
      child of the last draw is dropped. */
  function NextPopulation(population: seq<Chromosome>, eliteIndex: nat, draws: seq<Draw>, len: nat, size: nat): (next: seq<Chromosome>)
    requires eliteIndex < |population| && Uniform(population, len) && 1 <= size && size / 2 <= |draws|
    requires forall j :: 0 <= j < size / 2 ==> Fits(draws[j], |population|, len)
    ensures |next| == size && next[0] == population[eliteIndex] && Uniform(next, len)
  {
    var broods := Broods(population, draws, len, size / 2);
    BroodsUniform(population, draws, len, size / 2);
    FlattenUniform(broods, len);
    ([population[eliteIndex]] + Flatten(broods))[..size]
  }

  /** The children of one more draw extend the list of pairs bred so far. */
  lemma BroodsSnoc(population: seq<Chromosome>, draws: seq<Draw>, len: nat, j: nat, children: (Chromosome, Chromosome))
    requires Uniform(population, len) && j < |draws|
    requires forall m :: 0 <= m < j + 1 ==> Fits(draws[m], |population|, len)
    requires children == Children(population, draws[j], len)
    ensures Broods(population, draws, len, j) + [children] == Broods(population, draws, len, j + 1)
  {
  }

  /** One pass of the breeding loop appends the first child of a draw, and
      its second while the population holds fewer than `size` members. */
  function Grow<T>(members: seq<T>, children: (T, T), size: int): (grown: seq<T>)
    ensures |grown| == if |members| + 1 < size then |members| + 2 else |members| + 1
  {
    if |members| + 1 < size then members + [children.0] + [children.1] else members + [children.0]
  }

  /** Binary children keep every member binary. */
  lemma GrowBinary(members: seq<Chromosome>, children: (Chromosome, Chromosome), size: int)
    requires AllBinary(members) && Binary(children.0) && Binary(children.1)
    ensures AllBinary(Grow(members, children, size))
  {
    AllBinaryAppend(members, children.0);
    if |members| + 1 < size {
      AllBinaryAppend(members + [children.0], children.1);
    }
  }

  /** The members after the breeding passes that produced `pairs`, pass by
      pass, behind the elite `head`. */
  function Bred<T>(head: T, pairs: seq<(T, T)>, size: int): seq<T>
    decreases |pairs|
  {
    if pairs == [] then [head]
    else Grow(Bred(head, pairs[..|pairs| - 1], size), pairs[|pairs| - 1], size)
  }

  /** One more pass grows the members by its pair. */
  lemma BredSnoc<T>(head: T, pairs: seq<(T, T)>, p: (T, T), size: int)
    ensures Bred(head, pairs + [p], size) == Grow(Bred(head, pairs, size), p, size)
  {
    assert (pairs + [p])[..|pairs|] == pairs;
  }

  /** Behind a first member `head`, appending the next pair's first member,
      and its second while fewer than `size` members are held, keeps the list
      a prefix of the flattened pairs. */
  lemma GrowPrefix<T>(head: T, pairs: seq<(T, T)>, p: (T, T), members: seq<T>, size: int)
    requires |members| == 1 + 2 * |pairs| && members == ([head] + Flatten(pairs))[..|members|]
    ensures var grown := Grow(members, p, size);
            grown == ([head] + Flatten(pairs + [p]))[..|grown|]
  {
    FlattenSnoc(pairs, p);
    var all := [head] + Flatten(pairs + [p]);
    assert members == [head] + Flatten(pairs);
    assert all == members + [p.0, p.1];
    if |members| + 1 < size {
      assert Grow(members, p, size) == members + [p.0, p.1];
      assert all[..|members| + 2] == all;
    } else {
      assert Grow(members, p, size) == members + [p.0];
      assert all[..|members| + 1] == members + [p.0];
    }
  }

  /** Pass by pass, while the population is not full, each pass adds two
      members, and the members are the elite followed by the flattened pairs,
      cut to `size`. */
  lemma {:induction false} BredIsPrefix<T>(head: T, pairs: seq<(T, T)>, size: int)
    requires 1 <= size && 2 * |pairs| <= size
    ensures |Bred(head, pairs, size)| == if 2 * |pairs| < size then 1 + 2 * |pairs| else size
    ensures Bred(head, pairs, size) == ([head] + Flatten(pairs))[..|Bred(head, pairs, size)|]
    decreases |pairs|
  {
    if pairs != [] {
      var init, p := pairs[..|pairs| - 1], pairs[|pairs| - 1];
      assert pairs == init + [p];
      BredIsPrefix(head, init, size);
      BredSnoc(head, init, p, size);
      GrowPrefix(head, init, p, Bred(head, init, size), size);
    }
  }

  /** The first `k` draws fit a population of `n` chromosomes of `len` genes. */
  ghost predicate FitsFor(draws: seq<Draw>, k: nat, n: nat, len: nat)
  {
    k <= |draws| && forall m :: 0 <= m < k ==> Fits(draws[m], n, len)
  }

  /** While the population is not full, the loop has a draw to use. */
  lemma PassInRange<T>(head: T, pairs: seq<(T, T)>, size: int, draws: seq<Draw>)
    requires 1 <= size && 2 * |pairs| <= size && |Bred(head, pairs, size)| < size
    requires |draws| >= size / 2
    ensures |pairs| < size / 2 && |pairs| < |draws| && 2 * (|pairs| + 1) <= size
  {
    BredIsPrefix(head, pairs, size);
  }

  /** A crossover drawn, in a pass the loop makes, on chromosomes shorter
      than two genes makes the program raise. */
  lemma PassFails(draws: seq<Draw>, size: int, rawLen: int, j: nat)
    requires size >= 3 && j < size / 2 && j < |draws| && draws[j].cross && rawLen < 2
    ensures BreedFails(draws, size, rawLen)
  {
  }

  /** When the loop stops, the pass-by-pass population is the next
      generation, and no draw made the program raise. */
  lemma BredDone(population: seq<Chromosome>, eliteIndex: nat, draws: seq<Draw>, size: int, rawLen: int, j: nat)
    requires eliteIndex < |population| == size && size != 2 && Uniform(population, Max0(rawLen))
    requires GenerationDraws(draws, size, rawLen)
    requires 2 * j <= size && FitsFor(draws, j, size, Max0(rawLen))
    requires |Bred(population[eliteIndex], Broods(population, draws, Max0(rawLen), j), size)| >= size
    ensures !BreedFails(draws, size, rawLen)
    ensures Breeding(population, eliteIndex, draws, size, rawLen) ==
            Some(Bred(population[eliteIndex], Broods(population, draws, Max0(rawLen), j), size))
  {
    var broods := Broods(population, draws, Max0(rawLen), j);
    BredIsPrefix(population[eliteIndex], broods, size);
    assert j == size / 2;
    assert !BreedFails(draws, size, rawLen);
    assert NextPopulation(population, eliteIndex, draws, Max0(rawLen), size) == ([population[eliteIndex]] + Flatten(broods))[..size];
    assert Breeding(population, eliteIndex, draws, size, rawLen) == Some(NextPopulation(population, eliteIndex, draws, Max0(rawLen), size));
    assert Bred(population[eliteIndex], broods, size) == ([population[eliteIndex]] + Flatten(broods))[..size];
  }

  /** After the elite, draw `j` supplies member `2j + 1`, its first child,
      and member `2j + 2`, its second child, when that one still fits. */
  lemma NextPopulationMembers(population: seq<Chromosome>, eliteIndex: nat, draws: seq<Draw>, len: nat, size: nat, j: nat)
    requires eliteIndex < |population| && Uniform(population, len) && 1 <= size && size / 2 <= |draws|
    requires forall m :: 0 <= m < size / 2 ==> Fits(draws[m], |population|, len)
    requires j < size / 2
    ensures var next, c := NextPopulation(population, eliteIndex, draws, len, size), Children(population, draws[j], len);
            next[2 * j + 1] == c.0 && (2 * j + 2 < size ==> next[2 * j + 2] == c.1)
  {
    var broods := Broods(population, draws, len, size / 2);
    assert NextPopulation(population, eliteIndex, draws, len, size) == ([population[eliteIndex]] + Flatten(broods))[..size];
    HeadedMember(population[eliteIndex], broods, size, j);
    BroodsMember(population, draws, len, size / 2, j);
  }

  /** Where breeding one generation raises: three indices cannot be sampled
      from two members, or a crossover is drawn on chromosomes shorter than
      two genes before the population is full. */
  ghost predicate BreedFails(generationDraws: seq<Draw>, size: int, len: int)
  {
    size == 2 ||
    (size >= 3 && len < 2 && exists j :: 0 <= j < size / 2 && j < |generationDraws| && generationDraws[j].cross)
  }

  /** The draws of one generation as the breeding loop can use them. */
  ghost predicate GenerationDraws(generationDraws: seq<Draw>, size: int, len: int)
  {
    size >= 3 ==>
      |generationDraws| >= size / 2 &&
      forall j :: 0 <= j < |generationDraws| ==> Drawable(generationDraws[j], size, len)
  }

  /** The population after one generation, or None where the program raises:
      no members to take the best of, or a failing breeding loop. */
  ghost function NextGeneration(population: seq<Chromosome>, generationDraws: seq<Draw>, size: int, len: int): (next: Option<seq<Chromosome>>)
    requires |population| == Max0(size) && Uniform(population, Max0(len))
    requires GenerationDraws(generationDraws, size, len)
    ensures next.None? <==> size <= 0 || BreedFails(generationDraws, size, len)
    ensures next.Some? ==> |next.value| == |population| && Uniform(next.value, Max0(len))
    ensures next.Some? ==> next.value[0] == population[ArgMaxFirst(Fitnesses(population))]
  {
    if size <= 0 then None
    else Breeding(population, ArgMaxFirst(Fitnesses(population)), generationDraws, size, len)
  }

  /** The outcome of the breeding loop behind the elite `population[eliteIndex]`:
      the next population, or None where the loop raises. */
  ghost function Breeding(population: seq<Chromosome>, eliteIndex: nat, generationDraws: seq<Draw>, size: int, len: int): (next: Option<seq<Chromosome>>)
    requires eliteIndex < |population| == size && Uniform(population, Max0(len))
    requires GenerationDraws(generationDraws, size, len)
    ensures next.None? <==> BreedFails(generationDraws, size, len)
    ensures next.Some? ==> |next.value| == size && Uniform(next.value, Max0(len))
    ensures next.Some? ==> next.value[0] == population[eliteIndex]
  {
    if BreedFails(generationDraws, size, len) then None
    else
      DrawsFit(generationDraws, size, len, size / 2);
      Some(NextPopulation(population, eliteIndex, generationDraws, Max0(len), size))
  }

  /** The draws of every generation as the run can use them. */
  ghost predicate RunDraws(draws: seq<seq<Draw>>, size: int, len: int)
  {
    forall g :: 0 <= g < |draws| ==> GenerationDraws(draws[g], size, len)
  }

  /** The population after `g` generations from `initial`, or None once a
      generation has raised. */
  ghost function PopulationAfter(initial: seq<Chromosome>, draws: seq<seq<Draw>>, size: int, len: int, g: nat): (p: Option<seq<Chromosome>>)
    requires |initial| == Max0(size) && Uniform(initial, Max0(len))
    requires RunDraws(draws, size, len) && (size >= 3 ==> g <= |draws|)
    ensures p.Some? ==> |p.value| == Max0(size) && Uniform(p.value, Max0(len))
  {
    if g == 0 then Some(initial)
    else
      match PopulationAfter(initial, draws, size, len, g - 1)
      case None => None
      case Some(previous) => NextGeneration(previous, if size >= 3 then draws[g - 1] else [], size, len)
  }

  /** A run raises only on an empty population, on two members (three
      indices cannot be sampled from two), or on chromosomes too short to
      cross over; with two members its first generation already raises. */
  lemma {:induction false} PopulationAfterFails(initial: seq<Chromosome>, draws: seq<seq<Draw>>, size: int, len: int, g: nat)
    requires |initial| == Max0(size) && Uniform(initial, Max0(len))
    requires RunDraws(draws, size, len) && (size >= 3 ==> g <= |draws|)
    ensures PopulationAfter(initial, draws, size, len, g).None? ==> size <= 0 || size == 2 || len < 2
    ensures size == 2 && g > 0 ==> PopulationAfter(initial, draws, size, len, g).None?
    decreases g
  {
    if g > 0 {
      PopulationAfterFails(initial, draws, size, len, g - 1);
    }
  }

  /** One more generation breeds behind the first fittest member of the
      current population. */
  lemma PopulationAfterStep(initial: seq<Chromosome>, draws: seq<seq<Draw>>, size: int, len: int, g: nat, population: seq<Chromosome>)
    requires |initial| == Max0(size) && Uniform(initial, Max0(len))
    requires RunDraws(draws, size, len) && (size >= 3 ==> g < |draws|) && size >= 1
    requires PopulationAfter(initial, draws, size, len, g) == Some(population)
    ensures |population| == size && Uniform(population, Max0(len))
    ensures GenerationDraws(if size >= 3 then draws[g] else [], size, len)
    ensures PopulationAfter(initial, draws, size, len, g + 1) ==
            Breeding(population, ArgMaxFirst(Fitnesses(population)), if size >= 3 then draws[g] else [], size, len)
  {
  }

  /** The best fitness of each of the first `g` generations, as the run
      records it before breeding; a generation that raised records nothing
      further. */
  ghost function History(initial: seq<Chromosome>, draws: seq<seq<Draw>>, size: int, len: int, g: nat): (h: seq<int>)
    requires |initial| == Max0(size) && Uniform(initial, Max0(len)) && size >= 1
    requires RunDraws(draws, size, len) && (size >= 3 ==> g <= |draws|)
    ensures |h| <= g
  {
    if g == 0 then []
    else
      match PopulationAfter(initial, draws, size, len, g - 1)
      case None => History(initial, draws, size, len, g - 1)
      case Some(p) => History(initial, draws, size, len, g - 1) + [Best(p)]
  }

  /** Recording one more generation appends the best fitness of the current
      population. */
  lemma HistorySnoc(initial: seq<Chromosome>, draws: seq<seq<Draw>>, size: int, len: int, g: nat, population: seq<Chromosome>)
    requires |initial| == Max0(size) && Uniform(initial, Max0(len)) && size >= 1
    requires RunDraws(draws, size, len) && (size >= 3 ==> g < |draws|)
    requires PopulationAfter(initial, draws, size, len, g) == Some(population)
    ensures History(initial, draws, size, len, g + 1) == History(initial, draws, size, len, g) + [Best(population)]
  {
  }

  /** A generation that bred was preceded by one that bred, and its history
      entry is the best fitness of that earlier population. */
  lemma HistoryStep(initial: seq<Chromosome>, draws: seq<seq<Draw>>, size: int, len: int, g: nat) returns (previous: seq<Chromosome>)
    requires |initial| == Max0(size) && Uniform(initial, Max0(len)) && size >= 1
    requires RunDraws(draws, size, len) && (size >= 3 ==> g <= |draws|)
    requires g > 0 && PopulationAfter(initial, draws, size, len, g).Some?
    ensures PopulationAfter(initial, draws, size, len, g - 1) == Some(previous)
    ensures History(initial, draws, size, len, g) == History(initial, draws, size, len, g - 1) + [Best(previous)]
  {
    previous := PopulationAfter(initial, draws, size, len, g - 1).value;
  }

  /** While every generation so far has bred, the history has an entry per
      generation, and entry `k` is the best fitness of the population after
      `k` generations. */
  lemma {:induction false} HistoryAt(initial: seq<Chromosome>, draws: seq<seq<Draw>>, size: int, len: int, g: nat, k: nat)
    requires |initial| == Max0(size) && Uniform(initial, Max0(len)) && size >= 1
    requires RunDraws(draws, size, len) && (size >= 3 ==> g <= |draws|)
    requires PopulationAfter(initial, draws, size, len, g).Some? && k < g
    ensures |History(initial, draws, size, len, g)| == g
    ensures PopulationAfter(initial, draws, size, len, k).Some?
    ensures History(initial, draws, size, len, g)[k] == Best(PopulationAfter(initial, draws, size, len, k).value)
    decreases g
  {
    var previous := HistoryStep(initial, draws, size, len, g);
    var earlier := History(initial, draws, size, len, g - 1);
    if g > 1 {
      HistoryAt(initial, draws, size, len, g - 1, if k < g - 1 then k else 0);
    }
    SnocAt(earlier, Best(previous), g - 1, k);
  }

  /** After `g` generations that all bred, the history holds, generation by
      generation, the best fitness of the population before its breeding. */
  lemma HistoryMembers(initial: seq<Chromosome>, draws: seq<seq<Draw>>, size: int, len: int, g: nat)
    requires |initial| == Max0(size) && Uniform(initial, Max0(len)) && size >= 1
    requires RunDraws(draws, size, len) && (size >= 3 ==> g <= |draws|)
    requires PopulationAfter(initial, draws, size, len, g).Some?
    ensures |History(initial, draws, size, len, g)| == g
    ensures forall k :: 0 <= k < g ==>
              PopulationAfter(initial, draws, size, len, k).Some? &&
              History(initial, draws, size, len, g)[k] == Best(PopulationAfter(initial, draws, size, len, k).value)
  {
    if g > 0 {
      HistoryAt(initial, draws, size, len, g, 0);
    }
    forall k | 0 <= k < g
      ensures PopulationAfter(initial, draws, size, len, k).Some?
      ensures History(initial, draws, size, len, g)[k] == Best(PopulationAfter(initial, draws, size, len, k).value)
    {
      HistoryAt(initial, draws, size, len, g, k);
    }
  }

  /** Appending to a list of `n` entries keeps them and adds entry `n`. */
  lemma SnocAt<T>(s: seq<T>, x: T, n: nat, k: nat)
    requires |s| <= n && k <= n
    ensures |s| == n ==> |s + [x]| == n + 1
    ensures |s| == n && k < n ==> (s + [x])[k] == s[k]
    ensures |s| == n && k == n ==> (s + [x])[k] == x
  {
  }

  /** Once a generation has raised, there is no later population. */
  lemma {:induction false} StaysNone(initial: seq<Chromosome>, draws: seq<seq<Draw>>, size: int, len: int, g: nat, h: nat)
    requires |initial| == Max0(size) && Uniform(initial, Max0(len))
    requires RunDraws(draws, size, len) && (size >= 3 ==> h <= |draws|) && g <= h
    requires PopulationAfter(initial, draws, size, len, g).None?
    ensures PopulationAfter(initial, draws, size, len, h).None?
    decreases h - g
  {
    if g < h {
      StaysNone(initial, draws, size, len, g + 1, h);
    }
  }

  datatype RunOutcome =
    | Finished(bestChromosome: Chromosome, bestFitness: int, bestHistory: seq<int>)
    | Invalid   // the program's ValueError, which it reports as invalid input

  class GeneticAlgorithm {
    const populationSize: int
    const chromosomeLength: int
    const generations: int
    var population: seq<Chromosome>

    /** Every member is a binary chromosome of the configured length, and
        there are `populationSize` of them. */
    ghost predicate Valid()
      reads this
    {
      |population| == Max0(populationSize) &&
      forall i :: 0 <= i < |population| ==> |population[i]| == Max0(chromosomeLength) && Binary(population[i])
    }

    /** A new instance with the randomly generated population `initial`. */
    constructor(populationSize: int, chromosomeLength: int, generations: int, initial: seq<Chromosome>)
      requires |initial| == Max0(populationSize)
      requires forall i :: 0 <= i < |initial| ==> |initial[i]| == Max0(chromosomeLength) && Binary(initial[i])
      ensures this.populationSize == populationSize && this.chromosomeLength == chromosomeLength
      ensures this.generations == generations && population == initial
      ensures Valid()
    {
      this.populationSize := populationSize;
      this.chromosomeLength := chromosomeLength;
      this.generations := generations;
      population := initial;
    }

    /** Two tournament winners, one per tournament, each a member whose
        fitness is largest among its three sampled indices. */
    method SelectParents(fitnesses: seq<int>, tournaments: seq<seq<nat>>) returns (selectedParents: seq<Chromosome>)
      requires |fitnesses| == |population| && |tournaments| == 2
      requires Tournament(tournaments[0], |population|) && Tournament(tournaments[1], |population|)
      ensures |selectedParents| == 2
      ensures forall k :: 0 <= k < 2 ==>
                selectedParents[k] == population[tournaments[k][WinnerPosition(fitnesses, tournaments[k])]]
    {
      selectedParents := [];
      for k := 0 to 2
        invariant |selectedParents| == k
        invariant forall m :: 0 <= m < k ==>
                    selectedParents[m] == population[tournaments[m][WinnerPosition(fitnesses, tournaments[m])]]
      {
        var tournamentIndices := tournaments[k];
        var winnerIndex := tournamentIndices[WinnerPosition(fitnesses, tournamentIndices)];
        selectedParents := selectedParents + [population[winnerIndex]];
      }
    }

    /** Bit-flip mutation in place: gene `i` becomes `1 - gene` where
        `mask[i]` was drawn, for each of the first `chromosomeLength` genes. */
    method Mutate(chromosome: array<int>, mask: seq<bool>)
      requires chromosome.Length == Max0(chromosomeLength) && |mask| == chromosome.Length
      modifies chromosome
      ensures chromosome[..] == Flip(old(chromosome[..]), mask)
    {
      ghost var original := chromosome[..];
      for i := 0 to Max0(chromosomeLength)
        invariant forall j :: 0 <= j < chromosome.Length ==>
                    chromosome[j] == if j < i && mask[j] then 1 - original[j] else original[j]
      {
        if mask[i] {
          chromosome[i] := 1 - chromosome[i];
        }
      }
    }

    /** A fresh list holding the genes of `c`, as the copies and slices the
        program makes. */
    static method ToArray(c: Chromosome) returns (a: array<int>)
      ensures fresh(a) && a[..] == c
    {
      a := new int[|c|](i requires 0 <= i < |c| => c[i]);
    }

    /** Crossover of two parents followed by mutation of each child, as
        drawn by `d`; binary parents of the configured length give binary
        children of that length. */
    method Offspring(parent1: Chromosome, parent2: Chromosome, d: Draw) returns (child1: Chromosome, child2: Chromosome)
      requires |parent1| == |parent2| == Max0(chromosomeLength) && Binary(parent1) && Binary(parent2)
      requires d.cross ==> 1 <= d.point <= chromosomeLength - 1
      requires |d.mask1| == |d.mask2| == Max0(chromosomeLength)
      ensures var children := Crossover(parent1, parent2, d.cross, d.point);
              child1 == Flip(children.0, d.mask1) && child2 == Flip(children.1, d.mask2)
      ensures |child1| == |child2| == Max0(chromosomeLength) && Binary(child1) && Binary(child2)
    {
      var children := Crossover(parent1, parent2, d.cross, d.point);
      var a1 := ToArray(children.0);
      Mutate(a1, d.mask1);
      var a2 := ToArray(children.1);
      Mutate(a2, d.mask2);
      child1, child2 := a1[..], a2[..];
      CrossoverKeepsBinary(parent1, parent2, d.cross, d.point);
      FlipKeepsBinary(children.0, d.mask1);
      FlipKeepsBinary(children.1, d.mask2);
    }

    /** The breeding loop of one generation: the elite `population[eliteIndex]`
        first, then mutated children of tournament winners, two per draw of
        `generationDraws`, until there are `populationSize` members.  It fails
        exactly where the program raises: sampling three indices from two
        members, or drawing a crossover on chromosomes shorter than two genes. */
    method Breed(fitnesses: seq<int>, eliteIndex: nat, generationDraws: seq<Draw>)
      returns (newPopulation: seq<Chromosome>, failed: bool)
      requires Valid() && fitnesses == Fitnesses(population) && eliteIndex < |population|
      requires GenerationDraws(generationDraws, populationSize, chromosomeLength)
      ensures Breeding(population, eliteIndex, generationDraws, populationSize, chromosomeLength) ==
              if failed then None else Some(newPopulation)
      ensures failed <==> BreedFails(generationDraws, populationSize, chromosomeLength)
      ensures !failed ==> AllBinary(newPopulation)
    {
      var len := Max0(chromosomeLength);
      newPopulation := [population[eliteIndex]];
      if populationSize == 2 {
        return newPopulation, true;   // the first pass samples three indices from two
      }
      failed := false;
      var j := 0;
      while |newPopulation| < populationSize
        invariant 2 * j <= populationSize && FitsFor(generationDraws, j, |population|, len)
        invariant newPopulation == Bred(population[eliteIndex], Broods(population, generationDraws, len, j), populationSize)
        invariant AllBinary(newPopulation)
      {
        var grown, passFailed := BreedPass(fitnesses, eliteIndex, generationDraws, j, newPopulation);
        if passFailed {
          return newPopulation, true;
        }
        newPopulation := grown;
        j := j + 1;
      }
      BredDone(population, eliteIndex, generationDraws, populationSize, chromosomeLength, j);
    }

    /** Pass `j` of the breeding loop: breed the children of draw `j` and
        append the first, and the second while the population is not full.
        It fails where the program raises. */
    method BreedPass(fitnesses: seq<int>, eliteIndex: nat, generationDraws: seq<Draw>, j: nat, members: seq<Chromosome>)
      returns (grown: seq<Chromosome>, failed: bool)
      requires Valid() && fitnesses == Fitnesses(population) && populationSize >= 3 && eliteIndex < |population|
      requires GenerationDraws(generationDraws, populationSize, chromosomeLength)
      requires 2 * j <= populationSize && FitsFor(generationDraws, j, |population|, Max0(chromosomeLength))
      requires members == Bred(population[eliteIndex], Broods(population, generationDraws, Max0(chromosomeLength), j), populationSize)
      requires |members| < populationSize && AllBinary(members)
      ensures failed ==> BreedFails(generationDraws, populationSize, chromosomeLength)
      ensures !failed ==> 2 * (j + 1) <= populationSize && FitsFor(generationDraws, j + 1, |population|, Max0(chromosomeLength))
      ensures !failed ==>
                grown == Bred(population[eliteIndex], Broods(population, generationDraws, Max0(chromosomeLength), j + 1), populationSize)
      ensures !failed ==> AllBinary(grown)
    {
      var len := Max0(chromosomeLength);
      ghost var broods := Broods(population, generationDraws, len, j);
      PassInRange(population[eliteIndex], broods, populationSize, generationDraws);
      var child1, child2, pairFailed := BreedPair(fitnesses, generationDraws[j]);
      if pairFailed {
        PassFails(generationDraws, populationSize, chromosomeLength, j);
        return members, true;
      }
      grown := members + [child1];
      if |grown| < populationSize {
        grown := grown + [child2];
      }
      failed := false;
      BroodsSnoc(population, generationDraws, len, j, (child1, child2));
      BredSnoc(population[eliteIndex], broods, (child1, child2), populationSize);
      GrowBinary(members, (child1, child2), populationSize);
    }

    /** One pass of the breeding loop on draw `d`: select two parents, cross
        them over and mutate the children.  It fails where the crossover
        raises, on chromosomes shorter than two genes. */
    method BreedPair(fitnesses: seq<int>, d: Draw) returns (child1: Chromosome, child2: Chromosome, failed: bool)
      requires Valid() && fitnesses == Fitnesses(population) && populationSize >= 3
      requires Drawable(d, populationSize, chromosomeLength)
      ensures failed <==> d.cross && chromosomeLength < 2
      ensures !failed ==> Fits(d, |population|, Max0(chromosomeLength))
      ensures !failed ==> (child1, child2) == Children(population, d, Max0(chromosomeLength))
      ensures !failed ==> Binary(child1) && Binary(child2)
    {
      var parents := SelectParents(fitnesses, d.tournaments);
      var parent1, parent2 := parents[0], parents[1];
      if d.cross && chromosomeLength < 2 {
        return [], [], true;   // no crossover point lies in 1 .. length - 1
      }
      child1, child2 := Offspring(parent1, parent2, d);
      failed := false;
      OffspringAreChildren(population, d, Max0(chromosomeLength), parent1, parent2, child1, child2);
    }

    /** One generation of the run: record the best fitness of the current
        population, then breed behind its first fittest member; the new
        population replaces the old one unless breeding raises. */
    method Generation(generationDraws: seq<Draw>, ghost initial: seq<Chromosome>, ghost draws: seq<seq<Draw>>,
                      ghost generation: nat, history: seq<int>)
      returns (recorded: seq<int>, failed: bool)
      requires Valid() && populationSize >= 1 && generation < generations
      requires |initial| == populationSize && Uniform(initial, Max0(chromosomeLength))
      requires RunDraws(draws, populationSize, chromosomeLength) && (populationSize >= 3 ==> generations <= |draws|)
      requires generationDraws == if populationSize >= 3 then draws[generation] else []
      requires PopulationAfter(initial, draws, populationSize, chromosomeLength, generation) == Some(population)
      requires history == History(initial, draws, populationSize, chromosomeLength, generation)
      requires NonDecreasing(history + [Best(population)])
      modifies this
      ensures Valid()
      ensures recorded == history + [Best(old(population))]
      ensures recorded == History(initial, draws, populationSize, chromosomeLength, generation + 1)
      ensures failed <==> PopulationAfter(initial, draws, populationSize, chromosomeLength, generation + 1).None?
      ensures failed ==> PopulationAfter(initial, draws, populationSize, chromosomeLength, generations).None?
      ensures !failed ==> PopulationAfter(initial, draws, populationSize, chromosomeLength, generation + 1) == Some(population)
      ensures !failed ==> NonDecreasing(recorded + [Best(population)])
    {
      var fitnesses := Fitnesses(population);
      var eliteIndex := ArgMaxFirst(fitnesses);
      var bestFitness := fitnesses[eliteIndex];
      BestIsFirstFittest(population);
      recorded := history + [bestFitness];
      HistorySnoc(initial, draws, populationSize, chromosomeLength, generation, population);
      PopulationAfterStep(initial, draws, populationSize, chromosomeLength, generation, population);
      var newPopulation;
      newPopulation, failed := Breed(fitnesses, eliteIndex, generationDraws);
      if failed {
        StaysNone(initial, draws, populationSize, chromosomeLength, generation + 1, generations);
        return;
      }
      EliteKeepsBest(population, newPopulation);
      NonDecreasingAppend(recorded, Best(newPopulation));
      population := newPopulation;
    }

    /** The generation loop of a run: `generations` generations from the
        current population, using `draws[g]` for the breeding passes of
        generation `g`, stopping where breeding raises. */
    method Evolve(draws: seq<seq<Draw>>) returns (history: seq<int>, failed: bool)
      requires Valid() && populationSize >= 1
      requires RunDraws(draws, populationSize, chromosomeLength)
      requires populationSize >= 3 ==> |draws| >= generations
      modifies this
      ensures Valid()
      ensures failed <==> PopulationAfter(old(population), draws, populationSize, chromosomeLength, Max0(generations)).None?
      ensures !failed ==>
                PopulationAfter(old(population), draws, populationSize, chromosomeLength, Max0(generations)) == Some(population)
      ensures !failed ==> history == History(old(population), draws, populationSize, chromosomeLength, Max0(generations))
      ensures !failed ==> NonDecreasing(history + [Best(population)])
    {
      ghost var initial := population;
      history := [];
      var generation := 0;
      while generation < generations
        invariant Valid()
        invariant 0 <= generation <= Max0(generations)
        invariant PopulationAfter(initial, draws, populationSize, chromosomeLength, generation) == Some(population)
        invariant history == History(initial, draws, populationSize, chromosomeLength, generation)
        invariant NonDecreasing(history + [Best(population)])
      {
        var generationDraws := if populationSize >= 3 then draws[generation] else [];
        history, failed := Generation(generationDraws, initial, draws, generation, history);
        if failed {
          return;
        }
        generation := generation + 1;
      }
      assert generation == Max0(generations);
      failed := false;
    }

    /** Runs `generations` generations, using `draws[g]` for the breeding
        passes of generation `g`.  Each generation records its best fitness
        and replaces the population by the one `Breed` makes.  The result is
        the first fittest member of the last population and its fitness. */
    method Run(draws: seq<seq<Draw>>) returns (r: RunOutcome)
      requires Valid()
      requires RunDraws(draws, populationSize, chromosomeLength)
      requires populationSize >= 3 ==> |draws| >= generations
      modifies this
      ensures Valid()
      ensures r.Invalid? <==>
                populationSize <= 0 ||
                PopulationAfter(old(population), draws, populationSize, chromosomeLength, Max0(generations)).None?
      ensures r.Finished? ==>
                PopulationAfter(old(population), draws, populationSize, chromosomeLength, Max0(generations)) == Some(population)
      ensures r.Finished? ==>
                |r.bestHistory| == Max0(generations) &&
                forall g :: 0 <= g < |r.bestHistory| ==>
                  PopulationAfter(old(population), draws, populationSize, chromosomeLength, g).Some? &&
                  r.bestHistory[g] == Best(PopulationAfter(old(population), draws, populationSize, chromosomeLength, g).value)
      ensures r.Finished? ==>
                |population| > 0 && r.bestFitness == Best(population) &&
                r.bestChromosome == population[ArgMaxFirst(Fitnesses(population))] &&
                NonDecreasing(r.bestHistory + [r.bestFitness])
    {
      if populationSize <= 0 {
        // the program's first max() over the empty population raises, in the
        // first generation or, with no generations, in the final results
        return Invalid;
      }
      var bestFitnessHistory, failed := Evolve(draws);
      if failed {
        return Invalid;
      }
      HistoryMembers(old(population), draws, populationSize, chromosomeLength, Max0(generations));
      var finalFitnesses := Fitnesses(population);
      var bestIndex := ArgMaxFirst(finalFitnesses);
      BestIsFirstFittest(population);
      r := Finished(population[bestIndex], finalFitnesses[bestIndex], bestFitnessHistory);
    }
  }
}
