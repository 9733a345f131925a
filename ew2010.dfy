/**
  The EW2010 effect table and trait values (fwdpy/qtrait/ew2010.cc), after the model
  of Eyre-Walker (2010), PNAS, doi 10.1073/pnas.0906182107. The table maps the
  position of every non-neutral mutation to its selection coefficient, a random
  quantitative effect and its scaled frequency; a diploid's trait value is the sum
  of the effects of the selected mutations on its two gametes.

  `pow` is a parameter (the floating-point power function is not modelled) and the
  uniform and Gaussian variates come from the seeded generator of module GslRng.
*/
module Ew2010 {
  import opened Wrappers
  import opened GslRng

  /** A row of the population's mutation table: position, selection coefficient,
      number of copies, and whether the mutation is neutral. */
  datatype Mutation = Mutation(pos: real, s: real, n: nat, neutral: bool)

  /** A gamete, by the positions of the selected mutations it carries. */
  datatype Gamete = Gamete(smutations: seq<real>)

  datatype Diploid = Diploid(first: Gamete, second: Gamete)

  /** The parts of a single-deme population that the two operations read. */
  datatype Population = Population(mutations: seq<Mutation>, diploids: seq<Diploid>)

  /** ew_mut_details: selection coefficient, assigned effect, scaled frequency. */
  datatype EffectRecord = EffectRecord(s: real, e: real, p: real)

  type Effects = map<real, EffectRecord>

  datatype Ew2010Error = MultipleMutationsAtPosition | UnknownPosition

  function Abs(x: real): real
  {
    if x < 0.0 then -x else x
  }

  // ---------------------------------------------------------------------------
  // ew2010_assign_effects
  // ---------------------------------------------------------------------------

  /** The random sign d: -1 when the uniform draw is below 0.5, otherwise +1. */
  function RandomSign(u: real): (d: real)
    ensures d == -1.0 || d == 1.0
    ensures d == -1.0 <==> u < 0.5
  {
    if u < 0.5 then -1.0 else 1.0
  }

  /** The base of the power: 4N|s|. */
  function Scaled(fourN: real, s: real): real
  {
    fourN * Abs(s)
  }

  /** The pre-noise magnitude (4N|s|)^tau, negated exactly when s < 0. */
  function Magnitude(pow: (real, real) -> real, fourN: real, s: real, tau: real): (r: real)
    ensures Abs(r) == Abs(pow(fourN * Abs(s), tau))
    ensures pow(fourN * Abs(s), tau) > 0.0 ==> (r < 0.0 <==> s < 0.0)
  {
    if s < 0.0 then -pow(Scaled(fourN, s), tau) else pow(Scaled(fourN, s), tau)
  }

  /** The two cases of Magnitude, as ground facts for the method that computes it. */
  lemma MagnitudeSign(pow: (real, real) -> real, fourN: real, s: real, tau: real)
    ensures s < 0.0 ==> Magnitude(pow, fourN, s, tau) == -pow(Scaled(fourN, s), tau)
    ensures s >= 0.0 ==> Magnitude(pow, fourN, s, tau) == pow(Scaled(fourN, s), tau)
  {
  }

  /** The effect size: the signed magnitude scaled by 1 + the Gaussian noise. */
  function Noisy(d: real, magnitude: real, g: real): real
  {
    d * magnitude * (1.0 + g)
  }

  /** The mutation's frequency in a population of N diploids: n / 2N, written 2n / 4N. */
  function Frequency(n: nat, fourN: real): real
    requires fourN > 0.0
  {
    2.0 * (n as real) / fourN
  }

  /** The table entry of a mutation, given the uniform draw `u` and the Gaussian draw `g`. */
  function Record(m: Mutation, fourN: real, tau: real, pow: (real, real) -> real, u: real, g: real): (r: EffectRecord)
    requires fourN > 0.0
    ensures r.s == m.s && r.p == 2.0 * (m.n as real) / fourN
    ensures u < 0.5 ==> r.e == -(Magnitude(pow, fourN, m.s, tau) * (1.0 + g))
    ensures u >= 0.5 ==> r.e == Magnitude(pow, fourN, m.s, tau) * (1.0 + g)
  {
    EffectRecord(m.s, Noisy(RandomSign(u), Magnitude(pow, fourN, m.s, tau), g), Frequency(m.n, fourN))
  }

  /** The fields of Record, as ground facts. */
  lemma RecordFields(m: Mutation, fourN: real, tau: real, pow: (real, real) -> real, u: real, g: real)
    requires fourN > 0.0
    ensures Record(m, fourN, tau, pow, u, g).s == m.s
    ensures Record(m, fourN, tau, pow, u, g).p == Frequency(m.n, fourN)
    ensures Record(m, fourN, tau, pow, u, g).e == Noisy(RandomSign(u), Magnitude(pow, fourN, m.s, tau), g)
  {
  }

  /** The outcome of the loop: the table or the error, and the generator's draw log. */
  datatype Assigned = Assigned(result: Result<Effects, Ew2010Error>, calls: seq<Draw>)

  /** The loop of ew2010_assign_effects over the mutation table, as a left fold,
      starting from the draw log `calls0`. */
  function AssignFrom(ms: seq<Mutation>, fourN: real, tau: real, sigma: real, pow: (real, real) -> real,
                      outcome: (seq<Draw>, Draw) -> real, calls0: seq<Draw>): (a: Assigned)
    requires fourN > 0.0
    ensures calls0 <= a.calls && |a.calls| <= |calls0| + 2 * |ms|
    ensures a.result.Failure? ==> a.result.error == MultipleMutationsAtPosition
    decreases |ms|
  {
    if ms == [] then Assigned(Success(map[]), calls0)
    else
      var prev := AssignFrom(ms[..|ms| - 1], fourN, tau, sigma, pow, outcome, calls0);
      var m := ms[|ms| - 1];
      if prev.result.Failure? || m.neutral then prev
      else if m.pos in prev.result.value then Assigned(Failure(MultipleMutationsAtPosition), prev.calls)
      else
        var u := outcome(prev.calls, UniformDraw);
        var g := outcome(prev.calls + [UniformDraw], GaussianDraw(sigma));
        Assigned(Success(prev.result.value[m.pos := Record(m, fourN, tau, pow, u, g)]),
                 prev.calls + [UniformDraw, GaussianDraw(sigma)])
  }

  /** The positions of the non-neutral mutations. */
  ghost function SelectedPositions(ms: seq<Mutation>): set<real>
  {
    set i | 0 <= i < |ms| && !ms[i].neutral :: ms[i].pos
  }

  /** Two non-neutral mutations share a position. */
  ghost predicate HasDuplicate(ms: seq<Mutation>)
  {
    exists i, j :: 0 <= i < j < |ms| && !ms[i].neutral && !ms[j].neutral && ms[i].pos == ms[j].pos
  }

  /** The draws the loop makes when it does not fail: a uniform then a Gaussian draw
      for each non-neutral mutation, in table order. */
  function DrawPlan(ms: seq<Mutation>, sigma: real): seq<Draw>
    decreases |ms|
  {
    if ms == [] then []
    else DrawPlan(ms[..|ms| - 1], sigma) + (if ms[|ms| - 1].neutral then [] else [UniformDraw, GaussianDraw(sigma)])
  }

  lemma SelectedPositionsSnoc(ms: seq<Mutation>)
    requires ms != []
    ensures SelectedPositions(ms) ==
            SelectedPositions(ms[..|ms| - 1]) + (if ms[|ms| - 1].neutral then {} else {ms[|ms| - 1].pos})
  {
    var p := ms[..|ms| - 1];
    forall x | x in SelectedPositions(ms)
      ensures x in SelectedPositions(p) + (if ms[|ms| - 1].neutral then {} else {ms[|ms| - 1].pos})
    {
      var i :| 0 <= i < |ms| && !ms[i].neutral && ms[i].pos == x;
      if i < |p| { assert p[i] == ms[i]; }
    }
    forall x | x in SelectedPositions(p) ensures x in SelectedPositions(ms) {
      var i :| 0 <= i < |p| && !p[i].neutral && p[i].pos == x;
      assert ms[i] == p[i];
    }
  }

  lemma HasDuplicateSnoc(ms: seq<Mutation>)
    requires ms != []
    ensures HasDuplicate(ms) <==>
            HasDuplicate(ms[..|ms| - 1]) || (!ms[|ms| - 1].neutral && ms[|ms| - 1].pos in SelectedPositions(ms[..|ms| - 1]))
  {
    var p := ms[..|ms| - 1];
    var m := ms[|ms| - 1];
    if HasDuplicate(ms) {
      var i, j :| 0 <= i < j < |ms| && !ms[i].neutral && !ms[j].neutral && ms[i].pos == ms[j].pos;
      if j < |p| {
        assert p[i] == ms[i] && p[j] == ms[j];
      } else {
        assert p[i] == ms[i];
        assert m.pos in SelectedPositions(p);
      }
    }
    if HasDuplicate(p) {
      var i, j :| 0 <= i < j < |p| && !p[i].neutral && !p[j].neutral && p[i].pos == p[j].pos;
      assert ms[i] == p[i] && ms[j] == p[j];
    }
    if !m.neutral && m.pos in SelectedPositions(p) {
      var i :| 0 <= i < |p| && !p[i].neutral && p[i].pos == m.pos;
      assert ms[i] == p[i];
    }
  }

  /** The loop fails exactly when two non-neutral mutations share a position. Otherwise
      the keys are exactly the non-neutral positions, and the loop drew one uniform
      then one Gaussian variate per non-neutral mutation, in table order. */
  lemma {:induction false} AssignOutcome(ms: seq<Mutation>, fourN: real, tau: real, sigma: real, pow: (real, real) -> real,
                                         outcome: (seq<Draw>, Draw) -> real, calls0: seq<Draw>)
    requires fourN > 0.0
    ensures var a := AssignFrom(ms, fourN, tau, sigma, pow, outcome, calls0);
      && (a.result.Failure? <==> HasDuplicate(ms))
      && (a.result.Failure? ==> a.result.error == MultipleMutationsAtPosition)
      && (a.result.Success? ==> a.result.value.Keys == SelectedPositions(ms) && a.calls == calls0 + DrawPlan(ms, sigma))
    decreases |ms|
  {
    if ms == [] {
      assert SelectedPositions(ms) == {};
    } else {
      var p := ms[..|ms| - 1];
      AssignOutcome(p, fourN, tau, sigma, pow, outcome, calls0);
      SelectedPositionsSnoc(ms);
      HasDuplicateSnoc(ms);
    }
  }

  /** When the loop fails, it fails at the first non-neutral mutation j whose position an
      earlier non-neutral mutation already holds, having drawn only for the non-neutral
      mutations before j: none for j itself. */
  lemma {:induction false} AssignFailureDraws(ms: seq<Mutation>, fourN: real, tau: real, sigma: real, pow: (real, real) -> real,
                                              outcome: (seq<Draw>, Draw) -> real, calls0: seq<Draw>) returns (j: nat)
    requires fourN > 0.0
    requires AssignFrom(ms, fourN, tau, sigma, pow, outcome, calls0).result.Failure?
    ensures j < |ms| && !ms[j].neutral
    ensures !HasDuplicate(ms[..j]) && ms[j].pos in SelectedPositions(ms[..j])
    ensures AssignFrom(ms, fourN, tau, sigma, pow, outcome, calls0).calls == calls0 + DrawPlan(ms[..j], sigma)
    decreases |ms|
  {
    var p := ms[..|ms| - 1];
    var prev := AssignFrom(p, fourN, tau, sigma, pow, outcome, calls0);
    if prev.result.Failure? {
      j := AssignFailureDraws(p, fourN, tau, sigma, pow, outcome, calls0);
      assert p[..j] == ms[..j];
    } else {
      j := |ms| - 1;
      assert ms[..j] == p;
      AssignOutcome(p, fourN, tau, sigma, pow, outcome, calls0);
    }
  }

  /** The entry the loop builds for mutation i from the two draws made for it: those that
      follow the draws of the non-neutral mutations before it. */
  function EntryFor(ms: seq<Mutation>, i: nat, fourN: real, tau: real, sigma: real, pow: (real, real) -> real,
                    outcome: (seq<Draw>, Draw) -> real, calls0: seq<Draw>): EffectRecord
    requires fourN > 0.0 && i < |ms|
  {
    var c := calls0 + DrawPlan(ms[..i], sigma);
    Record(ms[i], fourN, tau, pow, outcome(c, UniformDraw), outcome(c + [UniformDraw], GaussianDraw(sigma)))
  }

  lemma {:induction false} AssignEntryAt(ms: seq<Mutation>, fourN: real, tau: real, sigma: real, pow: (real, real) -> real,
                                         outcome: (seq<Draw>, Draw) -> real, calls0: seq<Draw>, i: nat)
    requires fourN > 0.0
    requires AssignFrom(ms, fourN, tau, sigma, pow, outcome, calls0).result.Success?
    requires i < |ms| && !ms[i].neutral
    ensures var table := AssignFrom(ms, fourN, tau, sigma, pow, outcome, calls0).result.value;
      ms[i].pos in table && table[ms[i].pos] == EntryFor(ms, i, fourN, tau, sigma, pow, outcome, calls0)
    decreases |ms|
  {
    var p := ms[..|ms| - 1];
    var m := ms[|ms| - 1];
    var prev := AssignFrom(p, fourN, tau, sigma, pow, outcome, calls0);
    assert prev.result.Success?;
    AssignOutcome(p, fourN, tau, sigma, pow, outcome, calls0);
    if i < |p| {
      assert p[i] == ms[i] && p[..i] == ms[..i];
      assert EntryFor(p, i, fourN, tau, sigma, pow, outcome, calls0) == EntryFor(ms, i, fourN, tau, sigma, pow, outcome, calls0);
      AssignEntryAt(p, fourN, tau, sigma, pow, outcome, calls0, i);
      if !m.neutral {
        assert m.pos != ms[i].pos;
      }
    } else {
      assert ms[..i] == p;
      assert prev.calls == calls0 + DrawPlan(ms[..i], sigma);
    }
  }

  /** On success, the entry of the i-th mutation (non-neutral) stores its selection
      coefficient, its scaled frequency 2n/4N, and the effect d * magnitude * (1 + noise),
      where d comes from the uniform draw and the noise from the Gaussian draw made for
      it, right after the draws of the non-neutral mutations before it. */
  lemma AssignRecordAt(ms: seq<Mutation>, fourN: real, tau: real, sigma: real, pow: (real, real) -> real,
                       outcome: (seq<Draw>, Draw) -> real, calls0: seq<Draw>, table: Effects, i: nat)
    requires fourN > 0.0
    requires AssignFrom(ms, fourN, tau, sigma, pow, outcome, calls0).result == Success(table)
    requires i < |ms| && !ms[i].neutral
    ensures var c := calls0 + DrawPlan(ms[..i], sigma);
      && ms[i].pos in table
      && table[ms[i].pos].s == ms[i].s
      && table[ms[i].pos].p == Frequency(ms[i].n, fourN)
      && table[ms[i].pos].e == Noisy(RandomSign(outcome(c, UniformDraw)), Magnitude(pow, fourN, ms[i].s, tau),
                                     outcome(c + [UniformDraw], GaussianDraw(sigma)))
  {
    AssignEntryAt(ms, fourN, tau, sigma, pow, outcome, calls0, i);
    var c := calls0 + DrawPlan(ms[..i], sigma);
    var u, g := outcome(c, UniformDraw), outcome(c + [UniformDraw], GaussianDraw(sigma));
    assert table[ms[i].pos] == Record(ms[i], fourN, tau, pow, u, g);
    RecordFields(ms[i], fourN, tau, pow, u, g);
  }

  /** A failure in a prefix of the table is the failure of the whole loop. */
  lemma {:induction false} AssignFailurePersists(ms: seq<Mutation>, fourN: real, tau: real, sigma: real, pow: (real, real) -> real,
                                                 outcome: (seq<Draw>, Draw) -> real, calls0: seq<Draw>, j: nat)
    requires fourN > 0.0 && j <= |ms|
    requires AssignFrom(ms[..j], fourN, tau, sigma, pow, outcome, calls0).result.Failure?
    ensures AssignFrom(ms, fourN, tau, sigma, pow, outcome, calls0) == AssignFrom(ms[..j], fourN, tau, sigma, pow, outcome, calls0)
    decreases |ms|
  {
    if j < |ms| {
      var p := ms[..|ms| - 1];
      assert p[..j] == ms[..j];
      AssignFailurePersists(p, fourN, tau, sigma, pow, outcome, calls0, j);
    } else {
      assert ms[..j] == ms;
    }
  }

  /** The body of the loop for one selected mutation: a uniform draw for the sign, the
      magnitude, a Gaussian draw for the noise, and the entry built from them. */
  method DrawEffect(rng: Rng, m: Mutation, fourN: real, tau: real, sigma: real, pow: (real, real) -> real)
    returns (rec: EffectRecord)
    requires fourN > 0.0
    modifies rng
    ensures rng.calls == old(rng.calls) + [UniformDraw, GaussianDraw(sigma)]
    ensures rec == Record(m, fourN, tau, pow, rng.outcome(old(rng.calls), UniformDraw),
                          rng.outcome(old(rng.calls) + [UniformDraw], GaussianDraw(sigma)))
  {
    var u := rng.Uniform();
    var d := if u < 0.5 then -1.0 else 1.0;
    var power := pow(Scaled(fourN, m.s), tau);
    if m.s < 0.0 {
      power := -power;
    }
    MagnitudeSign(pow, fourN, m.s, tau);
    assert power == Magnitude(pow, fourN, m.s, tau);
    assert d == RandomSign(u);
    var g := rng.Gaussian(sigma);
    rec := EffectRecord(m.s, d * power * (1.0 + g), 2.0 * (m.n as real) / fourN);
    RecordFields(m, fourN, tau, pow, u, g);
  }

  /** ew2010_assign_effects itself: one pass over the mutation table, inserting into the
      map and drawing from `rng`. */
  method AssignEffects(rng: Rng, pop: Population, tau: real, sigma: real, pow: (real, real) -> real)
    returns (r: Result<Effects, Ew2010Error>)
    requires |pop.diploids| > 0
    modifies rng
    ensures Assigned(r, rng.calls)
         == AssignFrom(pop.mutations, 4.0 * (|pop.diploids| as real), tau, sigma, pow, rng.outcome, old(rng.calls))
  {
    var fourN := 4.0 * (|pop.diploids| as real);
    var ms := pop.mutations;
    var rv: Effects := map[];
    var i := 0;
    while i < |ms|
      invariant 0 <= i <= |ms|
      invariant AssignFrom(ms[..i], fourN, tau, sigma, pow, rng.outcome, old(rng.calls)) == Assigned(Success(rv), rng.calls)
    {
      var m := ms[i];
      assert ms[..i + 1][..i] == ms[..i];
      if !m.neutral {
        if m.pos in rv {
          AssignFailurePersists(ms, fourN, tau, sigma, pow, rng.outcome, old(rng.calls), i + 1);
          assert ms[..|ms|] == ms;
          return Failure(MultipleMutationsAtPosition);
        }
        var rec := DrawEffect(rng, m, fourN, tau, sigma, pow);
        rv := rv[m.pos := rec];
      }
      i := i + 1;
    }
    assert ms[..|ms|] == ms;
    return Success(rv);
  }

  // ---------------------------------------------------------------------------
  // ew2010_traits_cpp
  // ---------------------------------------------------------------------------

  /** The sum of the effects at the given positions, all of which are in the table. */
  function EffectSum(effects: Effects, ps: seq<real>): real
    requires forall j :: 0 <= j < |ps| ==> ps[j] in effects
    decreases |ps|
  {
    if ps == [] then 0.0 else effects[ps[0]].e + EffectSum(effects, ps[1..])
  }

  /** The sum over two lists of positions is the sum of the two sums: a diploid's trait
      value is the sum over the selected mutations of both gametes taken together. */
  lemma {:induction false} EffectSumAppend(effects: Effects, ps: seq<real>, qs: seq<real>)
    requires forall j :: 0 <= j < |ps| ==> ps[j] in effects
    requires forall j :: 0 <= j < |qs| ==> qs[j] in effects
    ensures EffectSum(effects, ps + qs) == EffectSum(effects, ps) + EffectSum(effects, qs)
    decreases |ps|
  {
    if ps != [] {
      assert (ps + qs)[1..] == ps[1..] + qs;
      EffectSumAppend(effects, ps[1..], qs);
    } else {
      assert ps + qs == qs;
    }
  }

  /** std::accumulate with sum_lambda: a left fold from `init` that throws at the first
      position missing from the table. */
  function Accumulate(effects: Effects, ps: seq<real>, init: real): (r: Result<real, Ew2010Error>)
    ensures r.Success? <==> forall j :: 0 <= j < |ps| ==> ps[j] in effects
    ensures r.Failure? ==> r.error == UnknownPosition
    ensures r.Success? ==> r.value == init + EffectSum(effects, ps)
    decreases |ps|
  {
    if ps == [] then Success(init)
    else if ps[0] !in effects then Failure(UnknownPosition)
    else Accumulate(effects, ps[1..], init + effects[ps[0]].e)
  }

  /** Every selected mutation of the gamete has an entry in the table. */
  predicate Known(effects: Effects, g: Gamete)
  {
    forall j :: 0 <= j < |g.smutations| ==> g.smutations[j] in effects
  }

  /** ew2010_traits_cpp: one trait value per diploid, in diploid order, the sum of the
      effects over both gametes (0 for a diploid without selected mutations); fails when
      some carried position has no entry in the table. */
  method TraitValues(pop: Population, effects: Effects) returns (r: Result<seq<real>, Ew2010Error>)
    ensures r.Failure? <==>
            exists i :: 0 <= i < |pop.diploids| && !(Known(effects, pop.diploids[i].first) && Known(effects, pop.diploids[i].second))
    ensures r.Failure? ==> r.error == UnknownPosition
    ensures r.Success? ==> |r.value| == |pop.diploids|
    ensures r.Success? ==> forall i :: 0 <= i < |pop.diploids| ==>
              r.value[i] == EffectSum(effects, pop.diploids[i].first.smutations) + EffectSum(effects, pop.diploids[i].second.smutations)
  {
    var rv: seq<real> := [];
    var i := 0;
    while i < |pop.diploids|
      invariant 0 <= i <= |pop.diploids|
      invariant |rv| == i
      invariant forall k :: 0 <= k < i ==> Known(effects, pop.diploids[k].first) && Known(effects, pop.diploids[k].second)
      invariant forall k :: 0 <= k < i ==>
                  rv[k] == EffectSum(effects, pop.diploids[k].first.smutations) + EffectSum(effects, pop.diploids[k].second.smutations)
    {
      var dip := pop.diploids[i];
      var a := Accumulate(effects, dip.first.smutations, 0.0);
      if a.Failure? {
        return Failure(UnknownPosition);
      }
      var b := Accumulate(effects, dip.second.smutations, 0.0);
      if b.Failure? {
        return Failure(UnknownPosition);
      }
      rv := rv + [a.value + b.value];
      i := i + 1;
    }
    return Success(rv);
  }
}
