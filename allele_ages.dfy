/**
  Trajectory analysis (fwdpy/fwdpy/allele_ages.cc): a trajectory set is a list of
  (mutation key, frequency history) pairs, where a history is a sequence of
  (generation, frequency) points. The operations merge two sets, summarise each
  qualifying history into one record, and flatten qualifying histories into one
  row per point.
*/
module AlleleAges {
  import opened Wrappers

  /** One recorded observation of a mutation: the generation and its frequency. */
  datatype Point = Point(generation: nat, freq: real)

  type History = seq<Point>

  /** The identity of a tracked selected mutation (selected_mut_data): position, origin
      generation, effect size, and the source's `label` field, here named `tag` because
      `label` is a Dafny keyword. */
  datatype MutationKey = MutationKey(pos: real, origin: nat, esize: real, tag: int)

  /** One element of a trajectory set. The key type is a parameter so that the merge
      only relies on the key's equality, whatever fields that equality compares. */
  datatype Entry<K> = Entry(key: K, history: History)

  type Trajectories = seq<Entry<MutationKey>>

  datatype AgeError = NegativeMinFreq | EmptyHistory

  /** allele_age_data_t: effect size, maximum frequency, final frequency, origin, sojourn. */
  datatype AgeRecord = AgeRecord(esize: real, maxFreq: real, lastFreq: real, origin: nat, sojourn: nat)

  /** selected_mut_data_tidy: one row per (mutation, recorded point). */
  datatype TidyRecord = TidyRecord(origin: nat, generation: nat, pos: real, freq: real, esize: real, tag: int)

  // ---------------------------------------------------------------------------
  // The maximum search: std::max_element with the comparator `a.freq <= b.freq`
  // ---------------------------------------------------------------------------

  /** The scan of std::max_element from index `i`, `best` being the index kept so far:
      a later point replaces it whenever `h[best].freq <= h[i].freq`. */
  function MaxElementFrom(h: History, best: nat, i: nat): (k: nat)
    requires best < i <= |h|
    requires forall j :: 0 <= j < i ==> h[j].freq <= h[best].freq
    requires forall j :: best < j < i ==> h[j].freq < h[best].freq
    ensures best <= k < |h|
    ensures forall j :: 0 <= j < |h| ==> h[j].freq <= h[k].freq
    ensures forall j :: k < j < |h| ==> h[j].freq < h[k].freq
    decreases |h| - i
  {
    if i == |h| then best
    else if h[best].freq <= h[i].freq then MaxElementFrom(h, i, i + 1)
    else MaxElementFrom(h, best, i + 1)
  }

  /** The index of the maximal point; on ties, the LAST maximal point. */
  function MaxElement(h: History): (k: nat)
    requires |h| > 0
    ensures k < |h|
    ensures forall j :: 0 <= j < |h| ==> h[j].freq <= h[k].freq
    ensures forall j :: k < j < |h| ==> h[j].freq < h[k].freq
  {
    MaxElementFrom(h, 0, 1)
  }

  /** The two properties of MaxElement pin the index down. */
  lemma LastMaximumIsUnique(h: History, k: nat)
    requires k < |h|
    requires forall j :: 0 <= j < |h| ==> h[j].freq <= h[k].freq
    requires forall j :: k < j < |h| ==> h[j].freq < h[k].freq
    ensures MaxElement(h) == k
  {
  }

  /** The tie example: among [(0, 0.5), (1, 0.8), (2, 0.8)] the point (2, 0.8) is selected. */
  lemma MaxElementTieExample()
    ensures var h := [Point(0, 0.5), Point(1, 0.8), Point(2, 0.8)]; MaxElement(h) == 2
  {
    var h := [Point(0, 0.5), Point(1, 0.8), Point(2, 0.8)];
    LastMaximumIsUnique(h, 2);
  }

  /** passes_minfreq_test: trivially true unless `minfreq > 0`; otherwise the maximal
      point must reach `minfreq`. The source dereferences the maximum of an empty
      history when `minfreq > 0`, so that case is excluded. */
  function PassesMinFreqTest(minfreq: real, h: History): (ok: bool)
    requires minfreq <= 0.0 || |h| > 0
    ensures ok <==> minfreq <= 0.0 || exists j :: 0 <= j < |h| && h[j].freq >= minfreq
  {
    if minfreq > 0.0 then h[MaxElement(h)].freq >= minfreq else true
  }

  // ---------------------------------------------------------------------------
  // allele_ages_details
  // ---------------------------------------------------------------------------

  /** A non-empty history is summarised when it is long enough and its maximum reaches `minfreq`. */
  function Qualifies(h: History, minfreq: real, minsojourn: nat): (q: bool)
    requires |h| > 0
    ensures q <==> |h| >= minsojourn && exists j :: 0 <= j < |h| && h[j].freq >= minfreq
  {
    |h| >= minsojourn && h[MaxElement(h)].freq >= minfreq
  }

  /** The record emitted for one qualifying history. */
  function Summary(key: MutationKey, h: History): (r: AgeRecord)
    requires |h| > 0
    ensures r.esize == key.esize && r.origin == key.origin
    ensures r.lastFreq == h[|h| - 1].freq && r.sojourn == |h|
    ensures exists j :: 0 <= j < |h| && h[j].freq == r.maxFreq
    ensures forall j :: 0 <= j < |h| ==> h[j].freq <= r.maxFreq
  {
    var m := MaxElement(h);
    AgeRecord(key.esize, h[m].freq, h[|h| - 1].freq, key.origin, |h|)
  }

  /** The loop of allele_ages_details over the entries, as a left fold: the first empty
      history aborts the whole call. */
  function SummarizeAll(t: Trajectories, minfreq: real, minsojourn: nat): (r: Result<seq<AgeRecord>, AgeError>)
    ensures r.Failure? ==> r.error == EmptyHistory
    ensures r.Success? ==> |r.value| <= |t|
    ensures r.Success? ==> forall k :: 0 <= k < |r.value| ==>
              r.value[k].sojourn >= minsojourn && r.value[k].maxFreq >= minfreq && r.value[k].lastFreq <= r.value[k].maxFreq
    decreases |t|
  {
    if t == [] then Success([])
    else
      var prev := SummarizeAll(t[..|t| - 1], minfreq, minsojourn);
      var e := t[|t| - 1];
      if prev.Failure? then prev
      else if |e.history| == 0 then Failure(EmptyHistory)
      else if Qualifies(e.history, minfreq, minsojourn) then Success(prev.value + [Summary(e.key, e.history)])
      else prev
  }

  /** allele_ages_details as a function: the `minfreq` check comes before any entry is examined. */
  function AgeSummaries(t: Trajectories, minfreq: real, minsojourn: nat): (r: Result<seq<AgeRecord>, AgeError>)
    ensures minfreq < 0.0 ==> r == Failure(NegativeMinFreq)
    ensures r.Success? ==> 0.0 <= minfreq && |r.value| <= |t|
    ensures r.Success? ==> forall k :: 0 <= k < |r.value| ==>
              r.value[k].sojourn >= minsojourn && r.value[k].maxFreq >= minfreq
  {
    if minfreq < 0.0 then Failure(NegativeMinFreq) else SummarizeAll(t, minfreq, minsojourn)
  }

  /** Once a prefix has failed, the whole loop fails with the same error. */
  lemma {:induction false} SummarizeAllFailurePersists(t: Trajectories, minfreq: real, minsojourn: nat, j: nat)
    requires j <= |t|
    requires SummarizeAll(t[..j], minfreq, minsojourn).Failure?
    ensures SummarizeAll(t, minfreq, minsojourn) == SummarizeAll(t[..j], minfreq, minsojourn)
    decreases |t|
  {
    if j < |t| {
      var p := t[..|t| - 1];
      assert p[..j] == t[..j];
      SummarizeAllFailurePersists(p, minfreq, minsojourn, j);
    } else {
      assert t[..j] == t;
    }
  }

  /** The loop fails exactly when some history is empty, and then with EmptyHistory. */
  lemma {:induction false} SummarizeAllFailure(t: Trajectories, minfreq: real, minsojourn: nat)
    ensures SummarizeAll(t, minfreq, minsojourn).Failure? <==> exists i :: 0 <= i < |t| && |t[i].history| == 0
    ensures SummarizeAll(t, minfreq, minsojourn).Failure? ==> SummarizeAll(t, minfreq, minsojourn).error == EmptyHistory
    decreases |t|
  {
    if t != [] {
      var p := t[..|t| - 1];
      SummarizeAllFailure(p, minfreq, minsojourn);
      if exists i :: 0 <= i < |p| && |p[i].history| == 0 {
        var i :| 0 <= i < |p| && |p[i].history| == 0;
        assert |t[i].history| == 0;
      }
      if exists i :: 0 <= i < |t| && |t[i].history| == 0 {
        var i :| 0 <= i < |t| && |t[i].history| == 0;
        if i < |p| {
          assert |p[i].history| == 0;
        }
      }
    }
  }

  /** allele_ages_details fails iff `minfreq < 0` or some history is empty, even one the
      sojourn filter would have excluded; the `minfreq` error takes precedence. */
  lemma AlleleAgesFailure(t: Trajectories, minfreq: real, minsojourn: nat)
    ensures AgeSummaries(t, minfreq, minsojourn).Failure? <==>
            minfreq < 0.0 || exists i :: 0 <= i < |t| && |t[i].history| == 0
    ensures minfreq < 0.0 ==> AgeSummaries(t, minfreq, minsojourn) == Failure(NegativeMinFreq)
    ensures minfreq >= 0.0 && AgeSummaries(t, minfreq, minsojourn).Failure? ==>
            AgeSummaries(t, minfreq, minsojourn).error == EmptyHistory
  {
    SummarizeAllFailure(t, minfreq, minsojourn);
  }

  /** The indices of the elements of `s` that satisfy `keep`, in increasing order. */
  function Positions<T>(s: seq<T>, keep: T -> bool): seq<nat>
    decreases |s|
  {
    if s == [] then []
    else Positions(s[..|s| - 1], keep) + (if keep(s[|s| - 1]) then [|s| - 1] else [])
  }

  /** Positions lists, in increasing order, exactly the indices of the elements that satisfy `keep`. */
  lemma {:induction false} PositionsExactly<T>(s: seq<T>, keep: T -> bool)
    ensures var idx := Positions(s, keep);
      && (forall k :: 0 <= k < |idx| ==> idx[k] < |s| && keep(s[idx[k]]))
      && (forall k, l :: 0 <= k < l < |idx| ==> idx[k] < idx[l])
      && (forall i :: 0 <= i < |s| && keep(s[i]) ==> i in idx)
    decreases |s|
  {
    if s != [] {
      var p := s[..|s| - 1];
      var n := |s| - 1;
      PositionsExactly(p, keep);
      var pidx := Positions(p, keep);
      var idx := Positions(s, keep);
      assert forall i :: 0 <= i < |p| ==> s[i] == p[i];
      if keep(s[n]) {
        assert idx == pidx + [n];
        forall i | 0 <= i < |s| && keep(s[i]) ensures i in idx {
          if i < n {
            assert i in pidx;
            var k :| 0 <= k < |pidx| && pidx[k] == i;
            assert idx[k] == i;
          } else {
            assert idx[|pidx|] == i;
          }
        }
      } else {
        assert idx == pidx;
        forall i | 0 <= i < |s| && keep(s[i]) ensures i in idx {
          if i < n {
            assert i in pidx;
          }
        }
      }
    }
  }

  /** The entries that produce a record: non-empty and qualifying. */
  function Emits(minfreq: real, minsojourn: nat): Entry<MutationKey> -> bool
  {
    (e: Entry<MutationKey>) => |e.history| > 0 && Qualifies(e.history, minfreq, minsojourn)
  }

  /** The indices of the entries that produce a record, in increasing order. */
  function Emitted(t: Trajectories, minfreq: real, minsojourn: nat): seq<nat>
  {
    Positions(t, Emits(minfreq, minsojourn))
  }

  /** On success, the records are the summaries of the emitted entries, one each, in order. */
  lemma {:induction false} SummarizeAllRecords(t: Trajectories, minfreq: real, minsojourn: nat)
    requires SummarizeAll(t, minfreq, minsojourn).Success?
    ensures var out, idx := SummarizeAll(t, minfreq, minsojourn).value, Emitted(t, minfreq, minsojourn);
      && |idx| == |out|
      && forall k :: 0 <= k < |idx| ==> idx[k] < |t| && |t[idx[k]].history| > 0 && out[k] == Summary(t[idx[k]].key, t[idx[k]].history)
    decreases |t|
  {
    if t != [] {
      var p := t[..|t| - 1];
      var n := |t| - 1;
      SummarizeAllRecords(p, minfreq, minsojourn);
      var pidx := Emitted(p, minfreq, minsojourn);
      var pout := SummarizeAll(p, minfreq, minsojourn).value;
      var idx := Emitted(t, minfreq, minsojourn);
      var out := SummarizeAll(t, minfreq, minsojourn).value;
      assert forall k :: 0 <= k < |pidx| ==> t[pidx[k]] == p[pidx[k]];
      if Qualifies(t[n].history, minfreq, minsojourn) {
        assert idx == pidx + [n];
        assert out == pout + [Summary(t[n].key, t[n].history)];
        forall k | 0 <= k < |idx|
          ensures idx[k] < |t| && |t[idx[k]].history| > 0 && out[k] == Summary(t[idx[k]].key, t[idx[k]].history)
        {
          if k < |pidx| {
            assert idx[k] == pidx[k] && out[k] == pout[k];
          }
        }
      } else {
        assert idx == pidx;
        assert out == pout;
      }
    }
  }

  /** On success, the records are the summaries of exactly the qualifying entries, one per
      entry, in input order: `idx` lists the qualifying input indices in increasing order. */
  lemma SummarizeAllSelection(t: Trajectories, minfreq: real, minsojourn: nat) returns (idx: seq<nat>)
    requires SummarizeAll(t, minfreq, minsojourn).Success?
    ensures var out := SummarizeAll(t, minfreq, minsojourn).value;
      && |idx| == |out|
      && (forall k :: 0 <= k < |idx| ==>
            && idx[k] < |t|
            && |t[idx[k]].history| > 0
            && Qualifies(t[idx[k]].history, minfreq, minsojourn)
            && out[k] == Summary(t[idx[k]].key, t[idx[k]].history))
      && (forall k, l :: 0 <= k < l < |idx| ==> idx[k] < idx[l])
      && (forall i :: 0 <= i < |t| && |t[i].history| > 0 && Qualifies(t[i].history, minfreq, minsojourn) ==> i in idx)
  {
    idx := Emitted(t, minfreq, minsojourn);
    PositionsExactly(t, Emits(minfreq, minsojourn));
    SummarizeAllRecords(t, minfreq, minsojourn);
  }

  /** allele_ages_details itself: a loop that appends into `rv`. */
  method AlleleAgesDetails(t: Trajectories, minfreq: real, minsojourn: nat)
    returns (r: Result<seq<AgeRecord>, AgeError>)
    ensures r == AgeSummaries(t, minfreq, minsojourn)
  {
    if minfreq < 0.0 {
      return Failure(NegativeMinFreq);
    }
    var rv: seq<AgeRecord> := [];
    var i := 0;
    while i < |t|
      invariant 0 <= i <= |t|
      invariant SummarizeAll(t[..i], minfreq, minsojourn) == Success(rv)
    {
      var h := t[i].history;
      assert t[..i + 1][..i] == t[..i];
      if |h| == 0 {
        SummarizeAllFailurePersists(t, minfreq, minsojourn, i + 1);
        return Failure(EmptyHistory);
      }
      if |h| >= minsojourn {
        var m := MaxElement(h);
        if h[m].freq >= minfreq {
          rv := rv + [AgeRecord(t[i].key.esize, h[m].freq, h[|h| - 1].freq, t[i].key.origin, |h|)];
        }
      }
      i := i + 1;
    }
    assert t[..|t|] == t;
    return Success(rv);
  }

  // ---------------------------------------------------------------------------
  // merge_trajectories_details
  // ---------------------------------------------------------------------------

  /** std::find_if on the key: the first entry whose key equals `key`. */
  function FindKey<K(==)>(t: seq<Entry<K>>, key: K): (r: Option<nat>)
    ensures r.Some? ==> r.value < |t| && t[r.value].key == key
    ensures r.Some? ==> forall j :: 0 <= j < r.value ==> t[j].key != key
    ensures r.None? <==> forall j :: 0 <= j < |t| ==> t[j].key != key
    decreases |t|
  {
    if t == [] then None
    else if t[0].key == key then Some(0)
    else
      match FindKey(t[1..], key)
      case None => None
      case Some(x) => Some(x + 1)
  }

  /** One step of the merge loop: extend the first entry with the same key in place, or
      append the entry at the end. */
  function Insert<K(==)>(acc: seq<Entry<K>>, e: Entry<K>): (r: seq<Entry<K>>)
    ensures |acc| <= |r| <= |acc| + 1
    ensures |r| == |acc| + 1 <==> forall j :: 0 <= j < |acc| ==> acc[j].key != e.key
  {
    match FindKey(acc, e.key)
    case None => acc + [e]
    case Some(x) => acc[x := Entry(acc[x].key, acc[x].history + e.history)]
  }

  /** merge_trajectories_details as a function: `t1` copied, then each entry of `t2` inserted in order. */
  function Merge<K(==)>(t1: seq<Entry<K>>, t2: seq<Entry<K>>): (r: seq<Entry<K>>)
    ensures |t1| <= |r| <= |t1| + |t2|
    decreases |t2|
  {
    if t2 == [] then t1 else Insert(Merge(t1, t2[..|t2| - 1]), t2[|t2| - 1])
  }

  /** The number of recorded points over all entries. */
  function TotalPoints<K>(t: seq<Entry<K>>): nat
    decreases |t|
  {
    if t == [] then 0 else TotalPoints(t[..|t| - 1]) + |t[|t| - 1].history|
  }

  ghost function Keys<K>(t: seq<Entry<K>>): set<K>
  {
    set i | 0 <= i < |t| :: t[i].key
  }

  ghost predicate UniqueKeys<K>(t: seq<Entry<K>>)
  {
    forall i, j :: 0 <= i < j < |t| ==> t[i].key != t[j].key
  }

  /** The points recorded under `key`, concatenated over its entries in order. */
  function PointsOf<K(==)>(t: seq<Entry<K>>, key: K): History
    decreases |t|
  {
    if t == [] then []
    else PointsOf(t[..|t| - 1], key) + (if t[|t| - 1].key == key then t[|t| - 1].history else [])
  }

  /** The merge keeps the concrete example: m:[(0,0.1)] merged with m:[(5,0.3)] is m:[(0,0.1),(5,0.3)]. */
  lemma MergeExample(m: MutationKey)
    ensures Merge([Entry(m, [Point(0, 0.1)])], [Entry(m, [Point(5, 0.3)])]) == [Entry(m, [Point(0, 0.1), Point(5, 0.3)])]
  {
    var t1 := [Entry(m, [Point(0, 0.1)])];
    var t2 := [Entry(m, [Point(5, 0.3)])];
    assert t2[..0] == [];
    assert Merge(t1, t2) == Insert(t1, t2[0]);
    assert FindKey(t1, m) == Some(0);
    assert Insert(t1, t2[0]) == [Entry(m, [Point(0, 0.1)] + [Point(5, 0.3)])];
    assert [Point(0, 0.1)] + [Point(5, 0.3)] == [Point(0, 0.1), Point(5, 0.3)];
  }

  /** One insertion either appends the entry, when no entry has its key, or extends the
      history of the first entry with that key by exactly the entry's points and leaves
      every other entry as it was. */
  lemma InsertShape<K>(acc: seq<Entry<K>>, e: Entry<K>)
    ensures (forall j :: 0 <= j < |acc| ==> acc[j].key != e.key) ==> Insert(acc, e) == acc + [e]
    ensures forall x :: 0 <= x < |acc| && acc[x].key == e.key && (forall j :: 0 <= j < x ==> acc[j].key != e.key) ==>
              var r := Insert(acc, e);
              && |r| == |acc|
              && r[x] == Entry(acc[x].key, acc[x].history + e.history)
              && (forall i :: 0 <= i < |acc| && i != x ==> r[i] == acc[i])
  {
    match FindKey(acc, e.key)
    case None =>
    case Some(x) =>
      assert acc[x].key == e.key;
  }

  /** The facts about one insertion that the merge lemmas use: histories only grow at their
      end, and an appended entry is the inserted one. */
  lemma InsertExtends<K>(acc: seq<Entry<K>>, e: Entry<K>)
    ensures forall i :: 0 <= i < |acc| ==> acc[i].history <= Insert(acc, e)[i].history
    ensures |Insert(acc, e)| == |acc| + 1 ==> Insert(acc, e)[|acc|] == e
  {
  }

  /** The merged set starts with the entries of `t1`, in order and with the same keys, each
      history extended at its end only; every entry after them carries a key of `t2` that
      no earlier entry carries. */
  lemma {:induction false} MergePrefix<K>(t1: seq<Entry<K>>, t2: seq<Entry<K>>)
    ensures var m := Merge(t1, t2);
      && |t1| <= |m|
      && (forall i :: 0 <= i < |t1| ==> m[i].key == t1[i].key && t1[i].history <= m[i].history)
      && (forall i :: |t1| <= i < |m| ==> m[i].key in Keys(t2))
      && (forall i, j :: 0 <= j < i < |m| && |t1| <= i ==> m[j].key != m[i].key)
    decreases |t2|
  {
    if t2 != [] {
      var p := t2[..|t2| - 1];
      var e := t2[|t2| - 1];
      var a := Merge(t1, p);
      MergePrefix(t1, p);
      InsertExtends(a, e);
      var m := Merge(t1, t2);
      assert m == Insert(a, e);
      forall i | 0 <= i < |t1|
        ensures m[i].key == t1[i].key && t1[i].history <= m[i].history
      {
        assert t1[i].history <= a[i].history <= m[i].history;
      }
      forall i | |t1| <= i < |m|
        ensures m[i].key in Keys(t2)
      {
        if i < |a| {
          assert m[i].key == a[i].key;
          var j :| 0 <= j < |p| && p[j].key == a[i].key;
          assert t2[j] == p[j];
        } else {
          assert m[i] == t2[|t2| - 1];
        }
      }
    }
  }

  /** Merging never appends an entry for a key already present, so unique keys stay unique. */
  lemma MergeUniqueKeys<K>(t1: seq<Entry<K>>, t2: seq<Entry<K>>)
    requires UniqueKeys(t1)
    ensures UniqueKeys(Merge(t1, t2))
  {
    MergePrefix(t1, t2);
    var m := Merge(t1, t2);
    forall i, j | 0 <= i < j < |m|
      ensures m[i].key != m[j].key
    {
      if j < |t1| {
        assert m[i].key == t1[i].key && m[j].key == t1[j].key;
      }
    }
  }

  lemma {:induction false} TotalPointsAppend<K>(a: seq<Entry<K>>, e: Entry<K>)
    ensures TotalPoints(a + [e]) == TotalPoints(a) + |e.history|
  {
    assert (a + [e])[..|a|] == a;
  }

  lemma {:induction false} TotalPointsUpdate<K>(a: seq<Entry<K>>, x: nat, e: Entry<K>)
    requires x < |a|
    ensures TotalPoints(a[x := e]) == TotalPoints(a) - |a[x].history| + |e.history|
    decreases |a|
  {
    var b := a[x := e];
    if x < |a| - 1 {
      assert b[..|b| - 1] == a[..|a| - 1][x := e];
      TotalPointsUpdate(a[..|a| - 1], x, e);
    } else {
      assert b[..|b| - 1] == a[..|a| - 1];
    }
  }

  /** Merging neither loses nor invents points: the total point count is the sum of both inputs'. */
  lemma {:induction false} MergeTotalPoints<K>(t1: seq<Entry<K>>, t2: seq<Entry<K>>)
    ensures TotalPoints(Merge(t1, t2)) == TotalPoints(t1) + TotalPoints(t2)
    decreases |t2|
  {
    if t2 != [] {
      var p := t2[..|t2| - 1];
      var e := t2[|t2| - 1];
      var a := Merge(t1, p);
      MergeTotalPoints(t1, p);
      match FindKey(a, e.key)
      case None =>
        TotalPointsAppend(a, e);
      case Some(x) =>
        TotalPointsUpdate(a, x, Entry(a[x].key, a[x].history + e.history));
    }
  }

  lemma KeysSnoc<K>(t: seq<Entry<K>>)
    requires t != []
    ensures Keys(t) == Keys(t[..|t| - 1]) + {t[|t| - 1].key}
  {
    var p := t[..|t| - 1];
    forall k | k in Keys(t) ensures k in Keys(p) + {t[|t| - 1].key} {
      var j :| 0 <= j < |t| && t[j].key == k;
      if j < |p| { assert p[j] == t[j]; }
    }
    forall k | k in Keys(p) ensures k in Keys(t) {
      var j :| 0 <= j < |p| && p[j].key == k;
      assert t[j] == p[j];
    }
  }

  /** Inserting an entry adds its key to the key set and nothing else. */
  lemma InsertKeys<K>(acc: seq<Entry<K>>, e: Entry<K>)
    ensures Keys(Insert(acc, e)) == Keys(acc) + {e.key}
  {
    InsertShape(acc, e);
    var m := Insert(acc, e);
    forall k | k in Keys(m) ensures k in Keys(acc) + {e.key} {
      var j :| 0 <= j < |m| && m[j].key == k;
      if j < |acc| { assert acc[j].key == k; }
    }
    forall k | k in Keys(acc) + {e.key} ensures k in Keys(m) {
      if k in Keys(acc) {
        var j :| 0 <= j < |acc| && acc[j].key == k;
        assert m[j].key == k;
      } else if |m| == |acc| + 1 {
        assert m[|acc|].key == k;
      }
    }
  }

  /** The merged key set is the union of the two key sets. */
  lemma {:induction false} MergeKeys<K>(t1: seq<Entry<K>>, t2: seq<Entry<K>>)
    ensures Keys(Merge(t1, t2)) == Keys(t1) + Keys(t2)
    decreases |t2|
  {
    if t2 != [] {
      var p := t2[..|t2| - 1];
      MergeKeys(t1, p);
      InsertKeys(Merge(t1, p), t2[|t2| - 1]);
      KeysSnoc(t2);
    }
  }

  lemma {:induction false} PointsOfAppend<K>(a: seq<Entry<K>>, e: Entry<K>, key: K)
    ensures PointsOf(a + [e], key) == PointsOf(a, key) + (if e.key == key then e.history else [])
  {
    assert (a + [e])[..|a|] == a;
  }

  /** With unique keys, the points under the key of entry `x` are that entry's history. */
  lemma {:induction false} PointsOfUnique<K>(a: seq<Entry<K>>, x: nat)
    requires UniqueKeys(a) && x < |a|
    ensures PointsOf(a, a[x].key) == a[x].history
    decreases |a|
  {
    var p := a[..|a| - 1];
    if x < |a| - 1 {
      assert p[x] == a[x];
      PointsOfUnique(p, x);
    } else {
      PointsOfAbsent(p, a[x].key);
    }
  }

  lemma {:induction false} PointsOfAbsent<K>(a: seq<Entry<K>>, key: K)
    requires forall j :: 0 <= j < |a| ==> a[j].key != key
    ensures PointsOf(a, key) == []
    decreases |a|
  {
    if a != [] {
      PointsOfAbsent(a[..|a| - 1], key);
    }
  }

  /** Changing the history of entry `x` leaves the points of every other key unchanged. */
  lemma {:induction false} PointsOfUpdateOther<K>(a: seq<Entry<K>>, x: nat, h: History, key: K)
    requires x < |a| && a[x].key != key
    ensures PointsOf(a[x := Entry(a[x].key, h)], key) == PointsOf(a, key)
    decreases |a|
  {
    var b := a[x := Entry(a[x].key, h)];
    if x < |a| - 1 {
      assert b[..|b| - 1] == a[..|a| - 1][x := Entry(a[x].key, h)];
      PointsOfUpdateOther(a[..|a| - 1], x, h, key);
    } else {
      assert b[..|b| - 1] == a[..|a| - 1];
    }
  }

  /** One insertion into a set with unique keys adds the entry's points to its key only. */
  lemma InsertPointsOf<K>(a: seq<Entry<K>>, e: Entry<K>, key: K)
    requires UniqueKeys(a)
    ensures PointsOf(Insert(a, e), key) == PointsOf(a, key) + (if e.key == key then e.history else [])
  {
    match FindKey(a, e.key)
    case None =>
      PointsOfAppend(a, e, key);
    case Some(x) =>
      var b := a[x := Entry(a[x].key, a[x].history + e.history)];
      assert Insert(a, e) == b;
      if key == e.key {
        assert UniqueKeys(b) by {
          forall i, j | 0 <= i < j < |b| ensures b[i].key != b[j].key {
            assert b[i].key == a[i].key && b[j].key == a[j].key;
          }
        }
        PointsOfUnique(a, x);
        PointsOfUnique(b, x);
      } else {
        PointsOfUpdateOther(a, x, a[x].history + e.history, key);
      }
  }

  /** For a first set with unique keys, the merged points of every key are the first set's
      points followed by the second set's points, in order: no re-sort, no deduplication. */
  lemma {:induction false} MergePointsOf<K>(t1: seq<Entry<K>>, t2: seq<Entry<K>>, key: K)
    requires UniqueKeys(t1)
    ensures PointsOf(Merge(t1, t2), key) == PointsOf(t1, key) + PointsOf(t2, key)
    decreases |t2|
  {
    if t2 != [] {
      var p := t2[..|t2| - 1];
      var e := t2[|t2| - 1];
      var a := Merge(t1, p);
      var extra := if e.key == key then e.history else [];
      assert PointsOf(t2, key) == PointsOf(p, key) + extra;
      assert PointsOf(a, key) == PointsOf(t1, key) + PointsOf(p, key) by {
        MergePointsOf(t1, p, key);
      }
      assert PointsOf(Merge(t1, t2), key) == PointsOf(a, key) + extra by {
        assert Merge(t1, t2) == Insert(a, e);
        MergeUniqueKeys(t1, p);
        InsertPointsOf(a, e, key);
      }
      assert (PointsOf(t1, key) + PointsOf(p, key)) + extra == PointsOf(t1, key) + (PointsOf(p, key) + extra);
    }
  }

  /** merge_trajectories_details itself: copy `t1`, then push back or extend in place. */
  method MergeTrajectoriesDetails<K(==)>(t1: seq<Entry<K>>, t2: seq<Entry<K>>) returns (rv: seq<Entry<K>>)
    ensures rv == Merge(t1, t2)
  {
    rv := t1;
    var i := 0;
    while i < |t2|
      invariant 0 <= i <= |t2|
      invariant rv == Merge(t1, t2[..i])
    {
      var e := t2[i];
      assert t2[..i + 1][..i] == t2[..i];
      var x := FindKey(rv, e.key);
      match x {
        case None =>
          rv := rv + [e];
        case Some(j) =>
          rv := rv[j := Entry(rv[j].key, rv[j].history + e.history)];
      }
      i := i + 1;
    }
    assert t2[..|t2|] == t2;
  }

  // ---------------------------------------------------------------------------
  // tidy_trajectory_info
  // ---------------------------------------------------------------------------

  /** The filter of tidy_trajectory_info. A final frequency of exactly 1.0 (a fixation)
      exempts the history from the sojourn filter. */
  predicate Included(e: Entry<MutationKey>, minSojourn: nat, minFreq: real, removeGoneBefore: nat, removeAroseAfter: nat): (ok: bool)
    ensures ok <==>
      var h := e.history;
      && |h| > 0
      && (|h| >= minSojourn || h[|h| - 1].freq == 1.0)
      && e.key.origin <= removeAroseAfter
      && h[|h| - 1].generation > removeGoneBefore
      && (minFreq <= 0.0 || exists j :: 0 <= j < |h| && h[j].freq >= minFreq)
  {
    && |e.history| > 0
    && (|e.history| >= minSojourn || e.history[|e.history| - 1].freq == 1.0)
    && e.key.origin <= removeAroseAfter
    && e.history[|e.history| - 1].generation > removeGoneBefore
    && PassesMinFreqTest(minFreq, e.history)
  }

  function Row(key: MutationKey, p: Point): TidyRecord
  {
    TidyRecord(key.origin, p.generation, key.pos, p.freq, key.esize, key.tag)
  }

  /** One row per point of the history, in point order. */
  function Rows(e: Entry<MutationKey>): seq<TidyRecord>
  {
    seq(|e.history|, k requires 0 <= k < |e.history| => Row(e.key, e.history[k]))
  }

  /** tidy_trajectory_info as a function: a left fold over the entries. */
  function Tidy(t: Trajectories, minSojourn: nat, minFreq: real, removeGoneBefore: nat, removeAroseAfter: nat): (r: seq<TidyRecord>)
    ensures |r| == IncludedPoints(t, minSojourn, minFreq, removeGoneBefore, removeAroseAfter)
    decreases |t|
  {
    if t == [] then []
    else
      var e := t[|t| - 1];
      Tidy(t[..|t| - 1], minSojourn, minFreq, removeGoneBefore, removeAroseAfter)
        + (if Included(e, minSojourn, minFreq, removeGoneBefore, removeAroseAfter) then Rows(e) else [])
  }

  /** The number of points of the included entries. */
  function IncludedPoints(t: Trajectories, minSojourn: nat, minFreq: real, removeGoneBefore: nat, removeAroseAfter: nat): nat
    decreases |t|
  {
    if t == [] then 0
    else
      var e := t[|t| - 1];
      IncludedPoints(t[..|t| - 1], minSojourn, minFreq, removeGoneBefore, removeAroseAfter)
        + (if Included(e, minSojourn, minFreq, removeGoneBefore, removeAroseAfter) then |e.history| else 0)
  }

  /** The output for a concatenation of sets is the concatenation of the outputs. */
  lemma {:induction false} TidyAppend(a: Trajectories, b: Trajectories, minSojourn: nat, minFreq: real, removeGoneBefore: nat, removeAroseAfter: nat)
    ensures Tidy(a + b, minSojourn, minFreq, removeGoneBefore, removeAroseAfter)
         == Tidy(a, minSojourn, minFreq, removeGoneBefore, removeAroseAfter) + Tidy(b, minSojourn, minFreq, removeGoneBefore, removeAroseAfter)
    decreases |b|
  {
    if b == [] {
      assert a + b == a;
    } else {
      var q := b[..|b| - 1];
      var e := b[|b| - 1];
      var rows := if Included(e, minSojourn, minFreq, removeGoneBefore, removeAroseAfter) then Rows(e) else [];
      assert (a + b)[..|a + b| - 1] == a + q && (a + b)[|a + b| - 1] == e;
      assert Tidy(a + b, minSojourn, minFreq, removeGoneBefore, removeAroseAfter)
          == Tidy(a + q, minSojourn, minFreq, removeGoneBefore, removeAroseAfter) + rows;
      assert Tidy(b, minSojourn, minFreq, removeGoneBefore, removeAroseAfter)
          == Tidy(q, minSojourn, minFreq, removeGoneBefore, removeAroseAfter) + rows;
      TidyAppend(a, q, minSojourn, minFreq, removeGoneBefore, removeAroseAfter);
    }
  }

  lemma TidySingle(e: Entry<MutationKey>, minSojourn: nat, minFreq: real, removeGoneBefore: nat, removeAroseAfter: nat)
    ensures Tidy([e], minSojourn, minFreq, removeGoneBefore, removeAroseAfter)
         == if Included(e, minSojourn, minFreq, removeGoneBefore, removeAroseAfter) then Rows(e) else []
  {
    assert [e][..0] == [];
  }

  /** The output splits around entry i: the rows of the entries before it, its own, and
      those of the entries after it. */
  lemma TidyAround(t: Trajectories, minSojourn: nat, minFreq: real, removeGoneBefore: nat, removeAroseAfter: nat, i: nat)
    requires i < |t|
    ensures Tidy(t, minSojourn, minFreq, removeGoneBefore, removeAroseAfter)
         == Tidy(t[..i], minSojourn, minFreq, removeGoneBefore, removeAroseAfter)
          + Tidy([t[i]], minSojourn, minFreq, removeGoneBefore, removeAroseAfter)
          + Tidy(t[i + 1..], minSojourn, minFreq, removeGoneBefore, removeAroseAfter)
  {
    var front, back := t[..i], t[i + 1..];
    assert t == front + [t[i]] + back;
    TidyAppend(front + [t[i]], back, minSojourn, minFreq, removeGoneBefore, removeAroseAfter);
    TidyAppend(front, [t[i]], minSojourn, minFreq, removeGoneBefore, removeAroseAfter);
  }

  lemma IndexInMiddle<T>(a: seq<T>, r: seq<T>, c: seq<T>, k: nat)
    requires k < |r|
    ensures |a| + k < |a + r + c| && (a + r + c)[|a| + k] == r[k]
  {
  }

  /** The k-th point of included entry i becomes the row at offset (points of the included
      entries before i) + k: rows follow entry order, then point order. */
  lemma TidyRowAt(t: Trajectories, minSojourn: nat, minFreq: real, removeGoneBefore: nat, removeAroseAfter: nat, i: nat, k: nat)
    requires i < |t| && k < |t[i].history|
    requires Included(t[i], minSojourn, minFreq, removeGoneBefore, removeAroseAfter)
    ensures var off := IncludedPoints(t[..i], minSojourn, minFreq, removeGoneBefore, removeAroseAfter);
      var out := Tidy(t, minSojourn, minFreq, removeGoneBefore, removeAroseAfter);
      off + k < |out| && out[off + k] == Row(t[i].key, t[i].history[k])
  {
    var a := Tidy(t[..i], minSojourn, minFreq, removeGoneBefore, removeAroseAfter);
    var r := Rows(t[i]);
    var c := Tidy(t[i + 1..], minSojourn, minFreq, removeGoneBefore, removeAroseAfter);
    assert Tidy(t, minSojourn, minFreq, removeGoneBefore, removeAroseAfter) == a + r + c by {
      TidyAround(t, minSojourn, minFreq, removeGoneBefore, removeAroseAfter, i);
      TidySingle(t[i], minSojourn, minFreq, removeGoneBefore, removeAroseAfter);
    }
    IndexInMiddle(a, r, c, k);
  }

  /** An empty history is skipped silently: removing it leaves the output unchanged. */
  lemma TidySkipsEmpty(t: Trajectories, minSojourn: nat, minFreq: real, removeGoneBefore: nat, removeAroseAfter: nat, i: nat)
    requires i < |t| && |t[i].history| == 0
    ensures Tidy(t, minSojourn, minFreq, removeGoneBefore, removeAroseAfter)
         == Tidy(t[..i] + t[i + 1..], minSojourn, minFreq, removeGoneBefore, removeAroseAfter)
  {
    TidyAround(t, minSojourn, minFreq, removeGoneBefore, removeAroseAfter, i);
    TidySingle(t[i], minSojourn, minFreq, removeGoneBefore, removeAroseAfter);
    TidyAppend(t[..i], t[i + 1..], minSojourn, minFreq, removeGoneBefore, removeAroseAfter);
  }

  /** A history that ends in fixation is included or not regardless of the sojourn threshold. */
  lemma FixationBypassesSojourn(e: Entry<MutationKey>, minSojourn: nat, minFreq: real, removeGoneBefore: nat, removeAroseAfter: nat)
    requires |e.history| > 0 && e.history[|e.history| - 1].freq == 1.0
    ensures Included(e, minSojourn, minFreq, removeGoneBefore, removeAroseAfter)
        <==> Included(e, 0, minFreq, removeGoneBefore, removeAroseAfter)
  {
  }

  /** tidy_trajectory_info itself: for each included entry, push one row per point. */
  method TidyTrajectoryInfo(t: Trajectories, minSojourn: nat, minFreq: real, removeGoneBefore: nat, removeAroseAfter: nat)
    returns (rv: seq<TidyRecord>)
    ensures rv == Tidy(t, minSojourn, minFreq, removeGoneBefore, removeAroseAfter)
  {
    rv := [];
    var i := 0;
    while i < |t|
      invariant 0 <= i <= |t|
      invariant rv == Tidy(t[..i], minSojourn, minFreq, removeGoneBefore, removeAroseAfter)
    {
      var e := t[i];
      var h := e.history;
      assert t[..i + 1][..i] == t[..i];
      if |h| > 0 && (|h| >= minSojourn || h[|h| - 1].freq == 1.0)
         && e.key.origin <= removeAroseAfter
         && h[|h| - 1].generation > removeGoneBefore
         && PassesMinFreqTest(minFreq, h)
      {
        ghost var before := rv;
        var k := 0;
        while k < |h|
          invariant 0 <= k <= |h|
          invariant rv == before + Rows(e)[..k]
        {
          rv := rv + [TidyRecord(e.key.origin, h[k].generation, e.key.pos, h[k].freq, e.key.esize, e.key.tag)];
          assert Rows(e)[..k + 1] == Rows(e)[..k] + [Rows(e)[k]];
          k := k + 1;
        }
        assert Rows(e)[..|h|] == Rows(e);
      }
      i := i + 1;
    }
    assert t[..|t|] == t;
  }
}
