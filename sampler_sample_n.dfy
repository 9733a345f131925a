/**
  The bookkeeping of the sample_n sampler (include/sampler_sample_n.hpp): each call
  takes a sample of n gametes split into a neutral and a selected block, removes
  adjacent duplicates from the selected block, appends the blocks to the output files
  whose paths are non-empty, and appends the sample with its details to the sampler's
  result sequence.

  Drawing the sample (KTfwd::sample_separate) and computing the details of the
  selected sites (get_sh_details) are library calls: the drawn sample is a parameter
  of each call and the details come from a function parameter. Output files are a map
  from path to the blocks written to it, in order; their text and gzip encoding is
  not modelled.
*/
module SamplerSampleN {
  import opened Wrappers
  import opened GslRng

  /** A segregating site of the sample: its position and its genotype string. */
  datatype Site = Site(pos: real, genotypes: string)

  type Block = seq<Site>

  /** KTfwd::sep_sample_t: the neutral block and the selected block. */
  datatype SepSample = SepSample(neutral: Block, selected: Block)

  /** One record of the detail list of a selected site: effect size, scaled
      population frequency, origin generation and locus index. */
  datatype SampleDetail = SampleDetail(esize: real, freq: real, origin: nat, locus: nat)

  type Details = seq<SampleDetail>

  /** One entry of the sampler's results: the sample and the details of its selected sites. */
  datatype SampleResult = SampleResult(sample: SepSample, details: Details)

  datatype IoError = CouldNotOpen(path: string)

  // ---------------------------------------------------------------------------
  // remove_redundant_selected_fixations: std::unique followed by erase
  // ---------------------------------------------------------------------------

  predicate NoAdjacentDuplicates<T(==)>(s: seq<T>)
  {
    forall j :: 0 < j < |s| ==> s[j - 1] != s[j]
  }

  /** The sequence std::unique keeps: the first element of every run of equal
      adjacent elements, in order. */
  function Dedup<T(==)>(s: seq<T>): (r: seq<T>)
    ensures |r| <= |s|
    ensures |s| > 0 ==> |r| > 0 && r[0] == s[0] && r[|r| - 1] == s[|s| - 1]
    decreases |s|
  {
    if |s| <= 1 then s
    else if s[|s| - 1] == s[|s| - 2] then Dedup(s[..|s| - 1])
    else Dedup(s[..|s| - 1]) + [s[|s| - 1]]
  }

  /** After the deduplication no two adjacent elements are equal. */
  lemma {:induction false} DedupNoAdjacent<T>(s: seq<T>)
    ensures NoAdjacentDuplicates(Dedup(s))
    decreases |s|
  {
    if |s| > 1 {
      var p := s[..|s| - 1];
      DedupNoAdjacent(p);
      if s[|s| - 1] != s[|s| - 2] {
        var d := Dedup(p);
        assert Dedup(s) == d + [s[|s| - 1]];
        forall j | 0 < j < |Dedup(s)| ensures Dedup(s)[j - 1] != Dedup(s)[j] {
          if j < |d| {
            assert Dedup(s)[j - 1] == d[j - 1] && Dedup(s)[j] == d[j];
          }
        }
      }
    }
  }

  /** Position i of the input starts a run: it is the first one or differs from its predecessor. */
  predicate StartsRun<T(==)>(s: seq<T>, i: int)
    requires 0 <= i < |s|
  {
    i == 0 || s[i - 1] != s[i]
  }

  /** The positions that start a run, in increasing order. */
  function RunStarts<T(==)>(s: seq<T>): seq<nat>
    decreases |s|
  {
    if s == [] then []
    else RunStarts(s[..|s| - 1]) + (if StartsRun(s, |s| - 1) then [|s| - 1] else [])
  }

  /** RunStarts lists, in increasing order, exactly the positions that start a run. */
  lemma {:induction false} RunStartsExactly<T>(s: seq<T>)
    ensures forall j :: 0 <= j < |RunStarts(s)| ==> RunStarts(s)[j] < |s| && StartsRun(s, RunStarts(s)[j])
    ensures forall j, k :: 0 <= j < k < |RunStarts(s)| ==> RunStarts(s)[j] < RunStarts(s)[k]
    ensures forall i :: 0 <= i < |s| && StartsRun(s, i) ==> i in RunStarts(s)
    decreases |s|
  {
    if s != [] {
      var p := s[..|s| - 1];
      var n := |s| - 1;
      RunStartsExactly(p);
      var q := RunStarts(p);
      var idx := RunStarts(s);
      forall i | 0 <= i < |p| ensures StartsRun(p, i) == StartsRun(s, i) {
        assert p[i] == s[i];
        if i > 0 { assert p[i - 1] == s[i - 1]; }
      }
      if StartsRun(s, n) {
        assert idx == q + [n];
        forall j | 0 <= j < |idx| ensures idx[j] < |s| && StartsRun(s, idx[j]) {
          if j < |q| {
            assert idx[j] == q[j] && StartsRun(p, q[j]);
          } else {
            assert idx[j] == n;
          }
        }
        forall i | 0 <= i < |s| && StartsRun(s, i) ensures i in idx {
          if i < n {
            assert i in q;
            var j :| 0 <= j < |q| && q[j] == i;
            assert idx[j] == i;
          } else {
            assert idx[|q|] == n;
          }
        }
      } else {
        assert idx == q;
        forall i | 0 <= i < |s| && StartsRun(s, i) ensures i in idx {
          if i < n {
            assert i in q;
          }
        }
      }
    }
  }

  /** The k-th element of the result is the element at the k-th run start. */
  lemma {:induction false} DedupAtRunStarts<T>(s: seq<T>)
    ensures |Dedup(s)| == |RunStarts(s)|
    ensures forall k :: 0 <= k < |Dedup(s)| ==> RunStarts(s)[k] < |s| && Dedup(s)[k] == s[RunStarts(s)[k]]
    decreases |s|
  {
    if s != [] {
      var p := s[..|s| - 1];
      var n := |s| - 1;
      DedupAtRunStarts(p);
      var q := RunStarts(p);
      assert forall k :: 0 <= k < |q| ==> q[k] < |p| && s[q[k]] == p[q[k]];
      if n == 0 {
        assert Dedup(s) == s && RunStarts(s) == [0];
      } else if s[n] == s[n - 1] {
        assert Dedup(s) == Dedup(p) && RunStarts(s) == q;
      } else {
        assert Dedup(s) == Dedup(p) + [s[n]] && RunStarts(s) == q + [n];
      }
    }
  }

  /** The result is the subsequence of the input made of exactly the positions that
      start a run. `idx` lists the kept positions in increasing order. */
  lemma DedupSelection<T>(s: seq<T>) returns (idx: seq<nat>)
    ensures |idx| == |Dedup(s)|
    ensures forall j :: 0 <= j < |idx| ==> idx[j] < |s| && Dedup(s)[j] == s[idx[j]] && StartsRun(s, idx[j])
    ensures forall j, k :: 0 <= j < k < |idx| ==> idx[j] < idx[k]
    ensures forall i :: 0 <= i < |s| && StartsRun(s, i) ==> i in idx
  {
    idx := RunStarts(s);
    RunStartsExactly(s);
    DedupAtRunStarts(s);
  }

  /** The deduplication keeps the same set of values. */
  lemma {:induction false} DedupSameElements<T>(s: seq<T>)
    ensures forall x :: x in Dedup(s) <==> x in s
    decreases |s|
  {
    if |s| > 1 {
      var p := s[..|s| - 1];
      DedupSameElements(p);
      assert s == p + [s[|s| - 1]];
      assert s[|s| - 2] == p[|p| - 1];
    }
  }

  /** The deduplication leaves a sequence unchanged exactly when it has no adjacent duplicates. */
  lemma {:induction false} DedupIdentity<T>(s: seq<T>)
    ensures Dedup(s) == s <==> NoAdjacentDuplicates(s)
    decreases |s|
  {
    DedupNoAdjacent(s);
    if |s| > 1 && NoAdjacentDuplicates(s) {
      var p := s[..|s| - 1];
      assert NoAdjacentDuplicates(p) by {
        forall j | 0 < j < |p| ensures p[j - 1] != p[j] {
          assert p[j - 1] == s[j - 1] && p[j] == s[j];
        }
      }
      DedupIdentity(p);
      assert s[|s| - 1] != s[|s| - 2];
      assert s == p + [s[|s| - 1]];
    }
  }

  /** Deduplicating twice is deduplicating once. */
  lemma DedupIdempotent<T>(s: seq<T>)
    ensures Dedup(Dedup(s)) == Dedup(s)
  {
    DedupNoAdjacent(s);
    DedupIdentity(Dedup(s));
  }

  /** std::unique on the whole array: moves the kept elements to the front and returns
      their number; the caller erases the rest. */
  method Unique<T(==)>(a: array<T>) returns (k: nat)
    modifies a
    ensures k <= a.Length
    ensures a[..k] == Dedup(old(a[..]))
  {
    if a.Length == 0 {
      return 0;
    }
    ghost var s := a[..];
    k := 1;
    var i := 1;
    while i < a.Length
      invariant 1 <= k <= i <= a.Length
      invariant a[..k] == Dedup(s[..i])
      invariant a[i..] == s[i..]
    {
      assert a[k - 1] == s[i - 1];
      assert a[i] == s[i];
      assert s[..i + 1][..i] == s[..i];
      if a[k - 1] != a[i] {
        a[k] := a[i];
        k := k + 1;
      }
      i := i + 1;
    }
    assert s[..a.Length] == s;
  }

  /** The sample with its selected block deduplicated and its neutral block untouched. */
  function Cleaned(s: SepSample): SepSample
  {
    SepSample(s.neutral, Dedup(s.selected))
  }

  /** remove_redundant_selected_fixations: the selected block, copied to an array,
      passed through std::unique and cut at the returned end. */
  method RemoveRedundantSelectedFixations(s: SepSample) returns (r: SepSample)
    ensures r.neutral == s.neutral
    ensures r.selected == Dedup(s.selected)
    ensures NoAdjacentDuplicates(r.selected)
  {
    var a := new Site[|s.selected|](i requires 0 <= i < |s.selected| => s.selected[i]);
    assert a[..] == s.selected;
    var k := Unique(a);
    r := SepSample(s.neutral, a[..k]);
    DedupNoAdjacent(s.selected);
  }

  // ---------------------------------------------------------------------------
  // Output files
  // ---------------------------------------------------------------------------

  type Files = map<string, seq<Block>>

  /** The blocks written to `path` so far; a file never written is empty. */
  function Contents(files: Files, path: string): seq<Block>
  {
    if path in files then files[path] else []
  }

  /** The files after `blocks` are appended, in order, to the file at `path`, or
      unchanged when `path` is empty (the stream is disabled). */
  function LogBlocks(files: Files, path: string, blocks: seq<Block>): (r: Files)
    ensures path != "" ==> Contents(r, path) == Contents(files, path) + blocks
    ensures forall p :: p != path ==> Contents(r, p) == Contents(files, p)
    ensures path == "" ==> r == files
  {
    if path == "" then files else files[path := Contents(files, path) + blocks]
  }

  /** The files after the file at `path` is opened in "wb" mode and closed, or unchanged
      when `path` is empty. */
  function Truncated(files: Files, path: string): (r: Files)
    ensures path != "" ==> Contents(r, path) == []
    ensures forall p :: p != path ==> Contents(r, p) == Contents(files, p)
  {
    if path == "" then files else files[path := []]
  }

  /** What one call leaves in the two output streams: the neutral blocks are appended
      first, then the selected blocks; with a shared path both land in the same file,
      neutral ones first; with an empty path that stream is left out. */
  lemma WrittenStreams(files: Files, nfile: string, sfile: string, ns: seq<Block>, ss: seq<Block>)
    ensures var f := LogBlocks(LogBlocks(files, nfile, ns), sfile, ss);
      && (nfile != "" && nfile != sfile ==> Contents(f, nfile) == Contents(files, nfile) + ns)
      && (sfile != "" && nfile != sfile ==> Contents(f, sfile) == Contents(files, sfile) + ss)
      && (nfile != "" && nfile == sfile ==> Contents(f, nfile) == Contents(files, nfile) + ns + ss)
      && (forall p :: p != nfile && p != sfile ==> Contents(f, p) == Contents(files, p))
      && (nfile == "" && sfile == "" ==> f == files)
  {
  }

  /** The file system the sampler writes to. Paths in `unopenable` cannot be opened. */
  class FileSystem {
    var files: Files
    const unopenable: set<string>

    constructor (files: Files, unopenable: set<string>)
      ensures this.files == files && this.unopenable == unopenable
    {
      this.files := files;
      this.unopenable := unopenable;
    }

    /** gzopen in "wb" mode followed by gzclose: empties the file, or fails. */
    method Truncate(path: string) returns (ok: bool)
      modifies this
      ensures ok <==> path !in unopenable
      ensures files == if ok then old(files)[path := []] else old(files)
    {
      ok := path !in unopenable;
      if ok {
        files := files[path := []];
      }
    }

    /** gzopen in "ab" mode: creates the file when it does not exist. */
    method OpenAppend(path: string)
      modifies this
      ensures files == old(files)[path := Contents(old(files), path)]
    {
      files := files[path := Contents(files, path)];
    }

    /** gzwrite of one block to a file opened for appending. */
    method Write(path: string, block: Block)
      requires path in files
      modifies this
      ensures files == old(files)[path := old(files)[path] + [block]]
    {
      files := files[path := files[path] + [block]];
    }
  }

  // ---------------------------------------------------------------------------
  // The sampler
  // ---------------------------------------------------------------------------

  /** The samples of one call with their selected blocks deduplicated, in locus order. */
  function CleanedAll(drawn: seq<SepSample>): (r: seq<SepSample>)
    ensures |r| == |drawn|
    ensures forall i :: 0 <= i < |drawn| ==> r[i].neutral == drawn[i].neutral && r[i].selected == Dedup(drawn[i].selected)
  {
    seq(|drawn|, i requires 0 <= i < |drawn| => Cleaned(drawn[i]))
  }

  /** The loop of the multi-locus call that deduplicates every per-locus sample in place. */
  method CleanSamples(drawn: seq<SepSample>) returns (s: seq<SepSample>)
    ensures s == CleanedAll(drawn)
  {
    s := drawn;
    var i := 0;
    while i < |s|
      invariant 0 <= i <= |s| && |s| == |drawn|
      invariant forall j :: 0 <= j < i ==> s[j] == Cleaned(drawn[j])
      invariant forall j :: i <= j < |s| ==> s[j] == drawn[j]
    {
      var c := RemoveRedundantSelectedFixations(s[i]);
      s := s[i := c];
      i := i + 1;
    }
  }

  function Neutrals(ss: seq<SepSample>): (r: seq<Block>)
    ensures |r| == |ss| && forall i :: 0 <= i < |ss| ==> r[i] == ss[i].neutral
  {
    seq(|ss|, i requires 0 <= i < |ss| => ss[i].neutral)
  }

  function Selecteds(ss: seq<SepSample>): (r: seq<Block>)
    ensures |r| == |ss| && forall i :: 0 <= i < |ss| ==> r[i] == ss[i].selected
  {
    seq(|ss|, i requires 0 <= i < |ss| => ss[i].selected)
  }

  /** The entries one multi-locus call appends: one per locus, in locus order, the
      details of locus i computed with locus index i. */
  function LocusResults(ss: seq<SepSample>, shDetails: (Block, nat) -> Details): (r: seq<SampleResult>)
    ensures |r| == |ss|
    ensures forall i :: 0 <= i < |ss| ==> r[i] == SampleResult(ss[i], shDetails(ss[i].selected, i))
    decreases |ss|
  {
    if ss == [] then []
    else
      var n := |ss| - 1;
      LocusResults(ss[..n], shDetails) + [SampleResult(ss[n], shDetails(ss[n].selected, n))]
  }

  class SampleN {
    /** The accumulated results, oldest first (the shared vector `rv`). */
    var rv: seq<SampleResult>
    const nsam: nat
    /** The value drawn from the upstream generator to seed the sampler's own one. */
    const seed: nat
    const nfile: string
    const sfile: string
    const locusBoundaries: seq<(real, real)>
    const removeFixed: bool

    /** Every stored selected block is free of adjacent duplicates. */
    predicate Valid()
      reads this
    {
      forall j :: 0 <= j < |rv| ==> NoAdjacentDuplicates(rv[j].sample.selected)
    }

    constructor (nsam: nat, seed: nat, nfile: string, sfile: string,
                 locusBoundaries: seq<(real, real)>, removeFixed: bool)
      ensures rv == [] && Valid()
      ensures this.nsam == nsam && this.seed == seed && this.nfile == nfile && this.sfile == sfile
      ensures this.locusBoundaries == locusBoundaries && this.removeFixed == removeFixed
    {
      rv := [];
      this.nsam := nsam;
      this.seed := seed;
      this.nfile := nfile;
      this.sfile := sfile;
      this.locusBoundaries := locusBoundaries;
      this.removeFixed := removeFixed;
    }

    /** The constructor of sample_n: one raw draw from the upstream generator seeds the
        sampler's own generator; then, unless appending, each non-empty path is
        truncated, the neutral one first, and a path that cannot be opened is an error.
        The file system comes before the three trailing parameters so that these keep the
        C++ defaults: `rfixed` true, no locus boundaries, and `append` true, so a caller
        that omits them gets append mode and no truncation. */
    static method Create(nsam: nat, upstream: Rng, nfile: string, sfile: string, fs: FileSystem,
                         rfixed: bool := true, boundaries: seq<(real, real)> := [], append: bool := true)
      returns (r: Result<SampleN, IoError>)
      modifies upstream, fs
      ensures upstream.calls == old(upstream.calls) + [GetDraw]
      ensures append ==> r.Success? && fs.files == old(fs.files)
      ensures !append && nfile != "" && nfile in fs.unopenable ==>
                r == Failure(CouldNotOpen(nfile)) && fs.files == old(fs.files)
      ensures !append && !(nfile != "" && nfile in fs.unopenable) && sfile != "" && sfile in fs.unopenable ==>
                r == Failure(CouldNotOpen(sfile)) && fs.files == Truncated(old(fs.files), nfile)
      ensures !append && !(nfile != "" && nfile in fs.unopenable) && !(sfile != "" && sfile in fs.unopenable) ==>
                r.Success? && fs.files == Truncated(Truncated(old(fs.files), nfile), sfile)
      ensures r.Success? ==>
                && fresh(r.value) && r.value.rv == [] && r.value.Valid()
                && r.value.seed == upstream.rawOutcome(old(upstream.calls))
                && r.value.nsam == nsam && r.value.nfile == nfile && r.value.sfile == sfile
                && r.value.locusBoundaries == boundaries && r.value.removeFixed == rfixed
    {
      var seed := upstream.Get();
      if !append {
        if nfile != "" {
          var ok := fs.Truncate(nfile);
          if !ok {
            return Failure(CouldNotOpen(nfile));
          }
        }
        if sfile != "" {
          var ok := fs.Truncate(sfile);
          if !ok {
            return Failure(CouldNotOpen(sfile));
          }
        }
      }
      var s := new SampleN(nsam, seed, nfile, sfile, boundaries, rfixed);
      return Success(s);
    }

    /** The single-locus call. `drawn` is the sample taken by sample_separate and
        `shDetails` is get_sh_details for this population and generation, given a
        selected block and a locus index. */
    method SampleSingleLocus(fs: FileSystem, drawn: SepSample, shDetails: (Block, nat) -> Details)
      requires Valid()
      modifies this, fs
      ensures Valid()
      ensures rv == old(rv) + [SampleResult(Cleaned(drawn), shDetails(Dedup(drawn.selected), 0))]
      ensures fs.files == LogBlocks(LogBlocks(old(fs.files), nfile, [drawn.neutral]), sfile, [Dedup(drawn.selected)])
    {
      var s := RemoveRedundantSelectedFixations(drawn);
      WriteBlocks(fs, nfile, [s.neutral]);
      WriteBlocks(fs, sfile, [s.selected]);
      var details := shDetails(s.selected, 0);
      rv := rv + [SampleResult(s, details)];
    }

    /** Unless `path` is empty: opens the file at `path` for appending and writes
        `blocks` to it, one write per block. */
    static method WriteBlocks(fs: FileSystem, path: string, blocks: seq<Block>)
      modifies fs
      ensures fs.files == LogBlocks(old(fs.files), path, blocks)
    {
      if path != "" {
        fs.OpenAppend(path);
        var i := 0;
        assert Contents(old(fs.files), path) + blocks[..0] == Contents(old(fs.files), path);
        while i < |blocks|
          invariant 0 <= i <= |blocks|
          invariant fs.files == LogBlocks(old(fs.files), path, blocks[..i])
        {
          assert blocks[..i + 1] == blocks[..i] + [blocks[i]];
          assert Contents(old(fs.files), path) + blocks[..i + 1] == Contents(old(fs.files), path) + blocks[..i] + [blocks[i]];
          fs.Write(path, blocks[i]);
          i := i + 1;
        }
        assert blocks[..|blocks|] == blocks;
      }
    }

    /** The multi-locus call. `drawn` holds the per-locus samples taken by
        sample_separate, in locus order. */
    method SampleMultiLocus(fs: FileSystem, drawn: seq<SepSample>, shDetails: (Block, nat) -> Details)
      requires Valid()
      modifies this, fs
      ensures Valid()
      ensures rv == old(rv) + LocusResults(CleanedAll(drawn), shDetails)
      ensures fs.files == LogBlocks(LogBlocks(old(fs.files), nfile, Neutrals(CleanedAll(drawn))),
                                    sfile, Selecteds(CleanedAll(drawn)))
    {
      var s := CleanSamples(drawn);
      WriteBlocks(fs, nfile, Neutrals(s));
      WriteBlocks(fs, sfile, Selecteds(s));
      forall j | 0 <= j < |s| ensures NoAdjacentDuplicates(s[j].selected) {
        DedupNoAdjacent(drawn[j].selected);
      }
      PushLocusResults(s, shDetails);
    }

    /** The last loop of the multi-locus call: one entry per locus, in locus order, with
        the details of locus i computed for locus index i. */
    method PushLocusResults(s: seq<SepSample>, shDetails: (Block, nat) -> Details)
      requires Valid()
      requires forall j :: 0 <= j < |s| ==> NoAdjacentDuplicates(s[j].selected)
      modifies this
      ensures Valid()
      ensures rv == old(rv) + LocusResults(s, shDetails)
    {
      var i := 0;
      assert s[..0] == [];
      assert rv == old(rv) + LocusResults(s[..0], shDetails);
      while i < |s|
        invariant 0 <= i <= |s|
        invariant rv == old(rv) + LocusResults(s[..i], shDetails)
        invariant Valid()
      {
        assert s[..i + 1][..i] == s[..i];
        var details := shDetails(s[i].selected, i);
        rv := rv + [SampleResult(s[i], details)];
        i := i + 1;
      }
      assert s[..|s|] == s;
    }

    /** final(): the accumulated results. */
    method Final() returns (r: seq<SampleResult>)
      requires Valid()
      ensures r == rv
      ensures forall j :: 0 <= j < |r| ==> NoAdjacentDuplicates(r[j].sample.selected)
    {
      r := rv;
    }
  }
}
