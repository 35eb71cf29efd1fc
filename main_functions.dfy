/**
  The enhancer-region pipeline: the identifier check on the input regions, region
  stitching with TSS exclusion and multi-promoter reversion, and the region table
  with constituent sizes and per-sample signal.
*/
module MainFunctions {
  import opened Wrappers
  import opened Strings
  import opened Annotation
  import opened RoseUtils

  // ------------------------------------------------------------ checkRefCollection

  const NonUniqueMessage: string :=
    "ERROR: REGIONS HAVE NON-UNIQUE IDENTIFIERS\n" +
    "THE SECOND COLUMN OF THE INPUT .GFF OR THE FOURTH COLUMN OF THE INPUT .BED MUST HAVE A UNIQUE IDENTIFIER FOR EACH REGION"

  /** `checkRefCollection`: passes exactly when no two regions share an id, and
      otherwise aborts the run with the error message. */
  function CheckRefCollection(loci: seq<Locus>): (r: Outcome)
    ensures r == Pass <==> forall i, j :: 0 <= i < j < |loci| ==> loci[i].id != loci[j].id
    ensures r.Fail? ==> r.error == NonUniqueMessage
  {
    var namesList := seq(|loci|, i requires 0 <= i < |loci| => loci[i].id);
    assert forall i :: 0 <= i < |loci| ==> namesList[i] == loci[i].id;
    UniquifyKeepsLengthIffDistinct(namesList);
    if |namesList| != |Uniquify(namesList)| then Fail(NonUniqueMessage) else Pass
  }

  // --------------------------------------------------------------- regionStitching

  /** `makeTSSLocus`: the window `[tss - flank, tss + flank]` around a gene's
      transcription start, carrying the gene's strand and id. */
  function TssLocus(g: GeneRecord, flank: int): Locus {
    Locus(g.chr, g.start - flank, g.start + flank, g.sense, g.id)
  }

  /** The TSS window of every gene, in table order. */
  function TssLoci(genes: seq<GeneRecord>, flank: int): (ws: seq<Locus>)
    ensures |ws| == |genes| && forall i :: 0 <= i < |genes| ==> ws[i] == TssLocus(genes[i], flank)
  {
    seq(|genes|, i requires 0 <= i < |genes| => TssLocus(genes[i], flank))
  }

  /** Why a locus was taken out: `CONTAINED` or `MULTIPLE_TSS`. */
  datatype Reason = Contained | MultipleTss

  function ReasonText(r: Reason): string {
    match r
    case Contained => "CONTAINED"
    case MultipleTss => "MULTIPLE_TSS"
  }

  /** A row of the debug table: the locus in string form, its id, the reason. */
  datatype DebugRow = DebugRow(locus: string, id: string, reason: Reason)

  function LogRow(l: Locus, reason: Reason): DebugRow {
    DebugRow(LocusString(l), l.id, reason)
  }

  /** The fixed flank of the windows that detect promoter straddling. */
  const MultipleTssFlank: int := 50

  /** Some window of the collection contains `l`. */
  predicate InTssZone(l: Locus, windows: seq<Locus>) {
    exists w :: w in windows && Contains(w, l)
  }

  /** The containment query is non-empty exactly when some window contains `l`. */
  lemma ContainersNonEmptyIff(windows: seq<Locus>, l: Locus)
    ensures |GetContainers(windows, l)| > 0 <==> InTssZone(l, windows)
  {
    var cs := GetContainers(windows, l);
    if |cs| > 0 {
      assert cs[0] in cs;
    }
  }

  /** The bound regions left after the TSS pass, in collection order. */
  function TssFilter(bound: seq<Locus>, windows: seq<Locus>): (kept: seq<Locus>)
    ensures |kept| <= |bound|
    ensures forall x :: x in kept <==> x in bound && !InTssZone(x, windows)
    decreases |bound|
  {
    if bound == [] then []
    else
      var pre := bound[..|bound| - 1];
      var l := bound[|bound| - 1];
      assert bound == pre + [l];
      TssFilter(pre, windows) + (if InTssZone(l, windows) then [] else [l])
  }

  /** The bound regions the TSS pass removes, in collection order. */
  function TssRemoved(bound: seq<Locus>, windows: seq<Locus>): (removed: seq<Locus>)
    ensures |removed| + |TssFilter(bound, windows)| == |bound|
    ensures forall x :: x in removed <==> x in bound && InTssZone(x, windows)
    decreases |bound|
  {
    if bound == [] then []
    else
      var pre := bound[..|bound| - 1];
      var l := bound[|bound| - 1];
      assert bound == pre + [l];
      TssRemoved(pre, windows) + (if InTssZone(l, windows) then [l] else [])
  }

  /** The `CONTAINED` rows of the TSS pass, in collection order. */
  function ContainedRows(bound: seq<Locus>, windows: seq<Locus>): seq<DebugRow>
    decreases |bound|
  {
    if bound == [] then []
    else
      var l := bound[|bound| - 1];
      ContainedRows(bound[..|bound| - 1], windows) + (if InTssZone(l, windows) then [LogRow(l, Contained)] else [])
  }

  /** One `CONTAINED` row per removed region, in the order of removal, so the
      number of rows is the number of regions removed. */
  lemma {:induction false} ContainedRowsPerRemoval(bound: seq<Locus>, windows: seq<Locus>)
    ensures |ContainedRows(bound, windows)| == |TssRemoved(bound, windows)| == |bound| - |TssFilter(bound, windows)|
    ensures forall i :: 0 <= i < |ContainedRows(bound, windows)| ==>
      ContainedRows(bound, windows)[i] == LogRow(TssRemoved(bound, windows)[i], Contained)
    decreases |bound|
  {
    if bound != [] {
      ContainedRowsPerRemoval(bound[..|bound| - 1], windows);
    }
  }

  /** The names of the genes whose narrow TSS window overlaps `s`, in table order. */
  function OverlapNames(genes: seq<GeneRecord>, s: Locus): (names: seq<string>)
    ensures forall n :: n in names <==>
      exists g :: g in genes && Overlaps(TssLocus(g, MultipleTssFlank), s) && g.name == n
    decreases |genes|
  {
    if genes == [] then []
    else
      var pre := genes[..|genes| - 1];
      var g := genes[|genes| - 1];
      assert genes == pre + [g];
      OverlapNames(pre, s) + (if Overlaps(TssLocus(g, MultipleTssFlank), s) then [g.name] else [])
  }

  /** The de-duplicated gene names of the windows overlapping a stitched region. */
  function TssNames(s: Locus, genes: seq<GeneRecord>): seq<string> {
    Uniquify(OverlapNames(genes, s))
  }

  /** A stitched region straddles the promoters of more than two genes. */
  predicate Reverted(s: Locus, genes: seq<GeneRecord>) {
    |TssNames(s, genes)| > 2
  }

  /** The set of distinct gene names whose narrow windows overlap `s`. */
  function StraddledGenes(s: Locus, genes: seq<GeneRecord>): set<string> {
    set g | g in genes && Overlaps(TssLocus(g, MultipleTssFlank), s) :: g.name
  }

  /** A stitched region is reverted exactly when it overlaps the narrow windows of
      more than two distinct gene names; two names keep it. */
  lemma RevertedIffMoreThanTwoGenes(s: Locus, genes: seq<GeneRecord>)
    ensures Reverted(s, genes) <==> |StraddledGenes(s, genes)| > 2
  {
    var names := OverlapNames(genes, s);
    UniquifyCountsDistinct(names);
    assert (set x | x in names) == StraddledGenes(s, genes);
  }

  /** What replaces one stitched region: the TSS-filtered regions it overlaps when it
      is reverted, itself otherwise. */
  function ResolvePiece(s: Locus, kept: seq<Locus>, genes: seq<GeneRecord>): seq<Locus> {
    if Reverted(s, genes) then GetOverlap(kept, s) else [s]
  }

  /** The final regions after the multi-promoter pass, in stitched order. */
  function Resolve(stitched: seq<Locus>, kept: seq<Locus>, genes: seq<GeneRecord>): seq<Locus>
    decreases |stitched|
  {
    if stitched == [] then []
    else
      Resolve(stitched[..|stitched| - 1], kept, genes) + ResolvePiece(stitched[|stitched| - 1], kept, genes)
  }

  /** The stitched regions that are reverted, in order. */
  function RevertedLoci(stitched: seq<Locus>, genes: seq<GeneRecord>): (rs: seq<Locus>)
    ensures forall x :: x in rs <==> x in stitched && Reverted(x, genes)
    decreases |stitched|
  {
    if stitched == [] then []
    else
      var pre := stitched[..|stitched| - 1];
      var s := stitched[|stitched| - 1];
      assert stitched == pre + [s];
      RevertedLoci(pre, genes) + (if Reverted(s, genes) then [s] else [])
  }

  /** The `MULTIPLE_TSS` rows of the second pass, in stitched order. */
  function MultipleTssRows(stitched: seq<Locus>, genes: seq<GeneRecord>): seq<DebugRow>
    decreases |stitched|
  {
    if stitched == [] then []
    else
      var s := stitched[|stitched| - 1];
      MultipleTssRows(stitched[..|stitched| - 1], genes) + (if Reverted(s, genes) then [LogRow(s, MultipleTss)] else [])
  }

  /** One `MULTIPLE_TSS` row per reverted stitched region, in order. */
  lemma {:induction false} MultipleTssRowsPerReversion(stitched: seq<Locus>, genes: seq<GeneRecord>)
    ensures |MultipleTssRows(stitched, genes)| == |RevertedLoci(stitched, genes)|
    ensures forall i :: 0 <= i < |MultipleTssRows(stitched, genes)| ==>
      MultipleTssRows(stitched, genes)[i] == LogRow(RevertedLoci(stitched, genes)[i], MultipleTss)
    decreases |stitched|
  {
    if stitched != [] {
      MultipleTssRowsPerReversion(stitched[..|stitched| - 1], genes);
    }
  }

  /** The final collection holds exactly the stitched regions that are kept and the
      filtered regions that overlap a reverted stitched region. */
  lemma {:induction false} ResolveMembers(stitched: seq<Locus>, kept: seq<Locus>, genes: seq<GeneRecord>, x: Locus)
    ensures x in Resolve(stitched, kept, genes) <==>
      (x in stitched && !Reverted(x, genes)) ||
      (x in kept && exists s :: s in stitched && Reverted(s, genes) && Overlaps(x, s))
    decreases |stitched|
  {
    if stitched != [] {
      var pre := stitched[..|stitched| - 1];
      var s := stitched[|stitched| - 1];
      assert stitched == pre + [s];
      ResolveMembers(pre, kept, genes, x);
      assert Resolve(stitched, kept, genes) == Resolve(pre, kept, genes) + ResolvePiece(s, kept, genes);
    }
  }

  /** All `CONTAINED` rows of a log come before all `MULTIPLE_TSS` rows. */
  predicate ContainedFirst(log: seq<DebugRow>) {
    forall i, j :: 0 <= i < j < |log| && log[j].reason == Contained ==> log[i].reason == Contained
  }

  lemma DebugLogOrdered(bound: seq<Locus>, windows: seq<Locus>, stitched: seq<Locus>, genes: seq<GeneRecord>)
    ensures ContainedFirst(ContainedRows(bound, windows) + MultipleTssRows(stitched, genes))
  {
    ContainedRowsPerRemoval(bound, windows);
    MultipleTssRowsPerReversion(stitched, genes);
  }

  /** The TSS windows of every gene, built one gene at a time. */
  method MakeTssLoci(startDict: seq<GeneRecord>, flank: int) returns (tssLoci: seq<Locus>)
    ensures |tssLoci| == |startDict|
    ensures forall i :: 0 <= i < |startDict| ==> tssLoci[i] == TssLocus(startDict[i], flank)
  {
    tssLoci := [];
    var i := 0;
    while i < |startDict|
      invariant 0 <= i <= |startDict|
      invariant tssLoci == TssLoci(startDict[..i], flank)
    {
      tssLoci := tssLoci + [TssLocus(startDict[i], flank)];
      i := i + 1;
    }
    assert startDict[..i] == startDict;
  }

  /** One step of the TSS pass on a region inside a TSS window: it is removed at its
      own place and logged. */
  lemma ExcludeTssRemove(bound: seq<Locus>, i: nat, ws: seq<Locus>)
    requires i < |bound| && InTssZone(bound[i], ws)
    ensures RemoveFirst(TssFilter(bound[..i], ws) + bound[i..], bound[i]) == TssFilter(bound[..i + 1], ws) + bound[i + 1..]
    ensures ContainedRows(bound[..i + 1], ws) == ContainedRows(bound[..i], ws) + [LogRow(bound[i], Contained)]
  {
    var f := TssFilter(bound[..i], ws);
    assert bound[..i + 1][..i] == bound[..i];
    assert TssFilter(bound[..i + 1], ws) == f;
    assert f + bound[i..] == f + [bound[i]] + bound[i + 1..];
    RemoveFirstAfter(f, bound[i], bound[i + 1..]);
  }

  /** One step of the TSS pass on any other region: it stays and nothing is logged. */
  lemma ExcludeTssKeep(bound: seq<Locus>, i: nat, ws: seq<Locus>)
    requires i < |bound| && !InTssZone(bound[i], ws)
    ensures TssFilter(bound[..i], ws) + bound[i..] == TssFilter(bound[..i + 1], ws) + bound[i + 1..]
    ensures ContainedRows(bound[..i + 1], ws) == ContainedRows(bound[..i], ws)
  {
    var f := TssFilter(bound[..i], ws);
    assert bound[..i + 1][..i] == bound[..i];
    assert TssFilter(bound[..i + 1], ws) == f + [bound[i]];
    assert bound[i..] == [bound[i]] + bound[i + 1..];
  }

  /** The TSS pass: every bound region contained in a TSS window is removed from the
      collection and logged as `CONTAINED`. */
  method ExcludeTss(bound: seq<Locus>, tssCollection: seq<Locus>)
    returns (boundCollection: seq<Locus>, debugOutput: seq<DebugRow>)
    ensures boundCollection == TssFilter(bound, tssCollection)
    ensures debugOutput == ContainedRows(bound, tssCollection)
  {
    boundCollection := bound;
    debugOutput := [];
    var i := 0;
    while i < |bound|
      invariant 0 <= i <= |bound|
      invariant boundCollection == TssFilter(bound[..i], tssCollection) + bound[i..]
      invariant debugOutput == ContainedRows(bound[..i], tssCollection)
    {
      var locus := bound[i];
      ContainersNonEmptyIff(tssCollection, locus);
      if |GetContainers(tssCollection, locus)| > 0 {
        ExcludeTssRemove(bound, i, tssCollection);
        boundCollection := RemoveFirst(boundCollection, locus);
        debugOutput := debugOutput + [LogRow(locus, Contained)];
      } else {
        ExcludeTssKeep(bound, i, tssCollection);
      }
      i := i + 1;
    }
    assert bound[..i] == bound;
  }

  /** The multi-promoter pass: a stitched region straddling more than two genes is
      replaced by the filtered regions it overlaps and logged as `MULTIPLE_TSS`. */
  method RevertMultipleTss(stitchedCollection: seq<Locus>, boundCollection: seq<Locus>, startDict: seq<GeneRecord>)
    returns (fixedLoci: seq<Locus>, debugOutput: seq<DebugRow>)
    ensures fixedLoci == Resolve(stitchedCollection, boundCollection, startDict)
    ensures debugOutput == MultipleTssRows(stitchedCollection, startDict)
  {
    fixedLoci := [];
    debugOutput := [];
    var j := 0;
    while j < |stitchedCollection|
      invariant 0 <= j <= |stitchedCollection|
      invariant fixedLoci == Resolve(stitchedCollection[..j], boundCollection, startDict)
      invariant debugOutput == MultipleTssRows(stitchedCollection[..j], startDict)
    {
      var stitchedLocus := stitchedCollection[j];
      assert stitchedCollection[..j + 1][..j] == stitchedCollection[..j];
      var tssNames := TssNames(stitchedLocus, startDict);
      if |tssNames| > 2 {
        var originalLoci := GetOverlap(boundCollection, stitchedLocus);
        fixedLoci := fixedLoci + originalLoci;
        debugOutput := debugOutput + [LogRow(stitchedLocus, MultipleTss)];
      } else {
        fixedLoci := fixedLoci + [stitchedLocus];
      }
      j := j + 1;
    }
    assert stitchedCollection[..j] == stitchedCollection;
  }

  /** `regionStitching` on the regions of the input file and the start table of the
      annotation, with the stitching algorithm passed in as `stitch`. The start
      table is a dictionary in the source, so its ids are unique. */
  method RegionStitching(
    bound: seq<Locus>, stitchWindow: int, tssWindow: int, startDict: seq<GeneRecord>,
    stitch: (seq<Locus>, int) -> seq<Locus>, removeTSS: bool := true)
    returns (collection: seq<Locus>, debugOutput: seq<DebugRow>)
    requires removeTSS ==> Distinct(Ids(startDict))
    ensures !removeTSS ==> collection == stitch(bound, stitchWindow) && debugOutput == []
    ensures removeTSS ==>
      collection == Resolve(stitch(TssFilter(bound, TssLoci(startDict, tssWindow)), stitchWindow),
                            TssFilter(bound, TssLoci(startDict, tssWindow)), startDict)
    ensures removeTSS ==>
      debugOutput == ContainedRows(bound, TssLoci(startDict, tssWindow)) +
                     MultipleTssRows(stitch(TssFilter(bound, TssLoci(startDict, tssWindow)), stitchWindow), startDict)
    ensures ContainedFirst(debugOutput)
  {
    if removeTSS {
      var tssCollection := MakeTssLoci(startDict, tssWindow);
      assert tssCollection == TssLoci(startDict, tssWindow);
      var boundCollection, contained := ExcludeTss(bound, tssCollection);
      var stitchedCollection := stitch(boundCollection, stitchWindow);
      var reverted;
      collection, reverted := RevertMultipleTss(stitchedCollection, boundCollection, startDict);
      debugOutput := contained + reverted;
      DebugLogOrdered(bound, tssCollection, stitchedCollection, startDict);
    } else {
      collection := stitch(bound, stitchWindow);
      debugOutput := [];
    }
  }

  // ----------------------------------------------------------------- mapCollection

  /** The chromosome whose regions are left out of the table. */
  const IgnoredChromosome: string := "chrY"

  /** The stitched regions off the ignored chromosome, in collection order. */
  function DropChrY(loci: seq<Locus>): (r: seq<Locus>)
    ensures |r| <= |loci|
    ensures forall x :: x in r <==> x in loci && x.chr != IgnoredChromosome
    decreases |loci|
  {
    if loci == [] then []
    else
      var pre := loci[..|loci| - 1];
      var l := loci[|loci| - 1];
      assert loci == pre + [l];
      DropChrY(pre) + (if l.chr == IgnoredChromosome then [] else [l])
  }

  /** Appending a region extends the kept regions by it unless it is on chrY. */
  lemma DropChrYSnoc(loci: seq<Locus>, l: Locus)
    ensures l.chr == IgnoredChromosome ==> DropChrY(loci + [l]) == DropChrY(loci)
    ensures l.chr != IgnoredChromosome ==> DropChrY(loci + [l]) == DropChrY(loci) + [l]
  {
    var s := loci + [l];
    assert s[..|s| - 1] == loci && s[|s| - 1] == l;
    assert DropChrY(loci) + [] == DropChrY(loci);
  }

  /** One step of the chrY loop on a region of the ignored chromosome: it is removed
      at its own place. */
  lemma DropChrYRemove(loci: seq<Locus>, i: nat)
    requires i < |loci| && loci[i].chr == IgnoredChromosome
    ensures RemoveFirst(DropChrY(loci[..i]) + loci[i..], loci[i]) == DropChrY(loci[..i + 1]) + loci[i + 1..]
  {
    var f := DropChrY(loci[..i]);
    CutAt(loci, i);
    DropChrYSnoc(loci[..i], loci[i]);
    AppendAssoc(f, [loci[i]], loci[i + 1..]);
    RemoveFirstAfter(f, loci[i], loci[i + 1..]);
  }

  /** One step of the chrY loop on any other region: it stays. */
  lemma DropChrYKeep(loci: seq<Locus>, i: nat)
    requires i < |loci| && loci[i].chr != IgnoredChromosome
    ensures DropChrY(loci[..i]) + loci[i..] == DropChrY(loci[..i + 1]) + loci[i + 1..]
  {
    var f := DropChrY(loci[..i]);
    CutAt(loci, i);
    DropChrYSnoc(loci[..i], loci[i]);
    AppendAssoc(f, [loci[i]], loci[i + 1..]);
  }

  /** Longest region first. */
  predicate SortedByLength(s: seq<Locus>) {
    forall i, j :: 0 <= i < j < |s| ==> Len(s[i]) >= Len(s[j])
  }

  /** A region at least as long as every region of a sorted run can go in front. */
  lemma SortedCons(h: Locus, t: seq<Locus>)
    requires SortedByLength(t)
    requires forall y :: y in t ==> Len(y) <= Len(h)
    ensures SortedByLength([h] + t)
  {
    forall i, j | 0 <= i < j < |[h] + t|
      ensures Len(([h] + t)[i]) >= Len(([h] + t)[j])
    {
      assert ([h] + t)[j] == t[j - 1];
      if i > 0 {
        assert ([h] + t)[i] == t[i - 1];
      } else {
        assert t[j - 1] in t;
      }
    }
  }

  /** In a sorted run every region is at most as long as the first. */
  lemma SortedHeadLongest(s: seq<Locus>, y: Locus)
    requires SortedByLength(s) && y in s
    ensures Len(y) <= Len(s[0])
  {
    var j :| 0 <= j < |s| && s[j] == y;
    if j > 0 {
      assert Len(s[0]) >= Len(s[j]);
    }
  }

  /** Places `x` in front of the first region that is not longer than it. */
  function InsertByLength(x: Locus, s: seq<Locus>): (r: seq<Locus>)
    requires SortedByLength(s)
    ensures SortedByLength(r)
    ensures multiset(r) == multiset(s) + multiset{x}
    decreases |s|
  {
    if s == [] then [x]
    else if Len(x) >= Len(s[0]) then
      forall y | y in s
        ensures Len(y) <= Len(x)
      {
        SortedHeadLongest(s, y);
      }
      SortedCons(x, s);
      [x] + s
    else
      var rest := InsertByLength(x, s[1..]);
      assert s == [s[0]] + s[1..];
      forall y | y in rest
        ensures Len(y) <= Len(s[0])
      {
        assert y in multiset(rest);
        if y != x {
          assert y in multiset(s[1..]);
          SortedHeadLongest(s, y);
        }
      }
      SortedCons(s[0], rest);
      [s[0]] + rest
  }

  /** The order of the table: decreasing region length. */
  function SortByLength(s: seq<Locus>): (r: seq<Locus>)
    ensures SortedByLength(r)
    ensures multiset(r) == multiset(s)
    decreases |s|
  {
    if s == [] then []
    else
      assert s == [s[0]] + s[1..];
      InsertByLength(s[0], SortByLength(s[1..]))
  }

  /** The regions of the table in table order: every stitched region off chrY, each
      once, longest first. */
  function OrderedLoci(stitched: seq<Locus>): (r: seq<Locus>)
    ensures SortedByLength(r)
    ensures multiset(r) == multiset(DropChrY(stitched))
    ensures forall x :: x in r <==> x in stitched && x.chr != IgnoredChromosome
  {
    var r := SortByLength(DropChrY(stitched));
    assert forall x :: x in r <==> x in multiset(DropChrY(stitched));
    r
  }

  /** `int(id.split('_')[0])`, with 1 when the leading field is not a number. */
  function StitchCount(id: string): int {
    match ParseNat(Split(id, '_')[0])
    case Some(n) => n
    case None => 1
  }

  /** The id of a stitched region starts with the number of regions stitched, and
      the table reads that number back. */
  lemma StitchCountOfStitchedId(n: nat, rest: string)
    ensures StitchCount(NatToString(n) + "_" + rest) == n
  {
    NatStringHasNoSeparator(n, '_');
    SplitAtSeparator(NatToString(n), rest, '_');
    ParseNatToString(n);
  }

  /** An id whose leading `_`-field is not a number counts as one region, whether or
      not a `_` follows. */
  lemma StitchCountOfOtherId(lead: string, rest: string)
    requires '_' !in lead && !IsDigits(lead)
    ensures StitchCount(lead + "_" + rest) == 1
    ensures StitchCount(lead) == 1
  {
    assert lead + "_" + rest == lead + ['_'] + rest;
    SplitAtSeparator(lead, rest, '_');
    SplitNoSeparator(lead, '_');
  }

  /** The total length of a run of regions. */
  function SumLen(loci: seq<Locus>): int
    decreases |loci|
  {
    if loci == [] then 0 else SumLen(loci[..|loci| - 1]) + Len(loci[|loci| - 1])
  }

  /** `refEnrichSize`: the total length of the reference regions overlapping `locus`. */
  method ConstituentSize(referenceCollection: seq<Locus>, locus: Locus) returns (refEnrichSize: int)
    ensures refEnrichSize == SumLen(GetOverlap(referenceCollection, locus))
  {
    var refOverlappingLoci := GetOverlap(referenceCollection, locus);
    refEnrichSize := 0;
    var k := 0;
    while k < |refOverlappingLoci|
      invariant 0 <= k <= |refOverlappingLoci|
      invariant refEnrichSize == SumLen(refOverlappingLoci[..k])
    {
      assert refOverlappingLoci[..k + 1][..k] == refOverlappingLoci[..k];
      refEnrichSize := refEnrichSize + Len(refOverlappingLoci[k]);
      k := k + 1;
    }
    assert refOverlappingLoci[..k] == refOverlappingLoci;
  }

  /** A row of the region table; `signals` holds one value per sample. */
  datatype RegionRow = RegionRow(
    id: string, chr: string, start: int, stop: int, numLoci: int, constituentSize: int, signals: seq<real>)

  datatype LocusTable = LocusTable(header: seq<string>, rows: seq<RegionRow>)

  const BaseHeader: seq<string> := ["REGION_ID", "CHROM", "START", "STOP", "NUM_LOCI", "CONSTITUENT_SIZE"]

  /** The row of one stitched region before any sample is added. */
  function RegionRowOf(l: Locus, referenceCollection: seq<Locus>): RegionRow {
    RegionRow(l.id, l.chr, l.start, l.end, StitchCount(l.id), SumLen(GetOverlap(referenceCollection, l)), [])
  }

  function RegionRows(ordered: seq<Locus>, referenceCollection: seq<Locus>): (rows: seq<RegionRow>)
    ensures |rows| == |ordered|
    ensures forall i :: 0 <= i < |ordered| ==> rows[i] == RegionRowOf(ordered[i], referenceCollection)
  {
    seq(|ordered|, i requires 0 <= i < |ordered| => RegionRowOf(ordered[i], referenceCollection))
  }

  /** `bamFile.split('/')[-1]`. */
  function Basename(path: string): string {
    Last(Split(path, '/'))
  }

  /** The file name is a separator-free tail of the path. */
  lemma BasenameIsFileName(path: string)
    ensures '/' !in Basename(path)
    ensures |Basename(path)| <= |path| && path[|path| - |Basename(path)|..] == Basename(path)
  {
    JoinSplit(path, '/');
    JoinEndsWithLast(Split(path, '/'), '/');
  }

  /** The mapped GFF of one sample: `<folder><ref>_<bam name>_MAPPED.gff`. */
  function MappedPath(mappedFolder: string, refName: string, bamFileName: string): string {
    mappedFolder + refName + "_" + bamFileName + "_MAPPED.gff"
  }

  /** A line of a mapped GFF: the region id, its `chr(sense):start-end` text, and the
      signal column as `float()` reads it (`None` when it is not a number). */
  datatype MappedRow = MappedRow(id: string, coords: string, signal: Option<real>)

  /** `mappedGFF[1:]`: the lines after the header. */
  function DataLines(table: seq<MappedRow>): seq<MappedRow> {
    if table == [] then [] else table[1..]
  }

  /** The locus of a mapped line, strand `.`, or `None` where `int()` or the indexing
      would raise. */
  function MappedLocus(line: MappedRow): Option<Locus> {
    match ParseCoordinates(line.coords)
    case None => None
    case Some((chrom, start, end)) => Some(Locus(chrom, start, end, ".", line.id))
  }

  /** Every line has a readable coordinate. */
  predicate AllParse(lines: seq<MappedRow>)
    decreases |lines|
  {
    lines == [] || (AllParse(lines[..|lines| - 1]) && MappedLocus(lines[|lines| - 1]).Some?)
  }

  lemma {:induction false} AllParseAt(lines: seq<MappedRow>, i: nat)
    requires i < |lines|
    ensures AllParse(lines) ==> MappedLocus(lines[i]).Some?
    decreases |lines|
  {
    if i < |lines| - 1 {
      AllParseAt(lines[..|lines| - 1], i);
    }
  }

  /** The loci of the mapped lines, in file order: line `j` gives its chromosome
      and span, strand `.` and its own id. */
  function MappedLoci(lines: seq<MappedRow>): (loci: seq<Locus>)
    requires AllParse(lines)
    ensures |loci| == |lines|
    ensures forall j :: 0 <= j < |lines| ==> MappedLocus(lines[j]).Some? && loci[j] == MappedLocus(lines[j]).value
    decreases |lines|
  {
    if lines == [] then []
    else MappedLoci(lines[..|lines| - 1]) + [MappedLocus(lines[|lines| - 1]).value]
  }

  function Abs(x: int): nat {
    if x < 0 then -x else x
  }

  /** A line's contribution: its signal times the distance between its end points,
      and nothing when the signal column is not a number. */
  function Weight(line: MappedRow): real
    requires MappedLocus(line).Some?
  {
    var l := MappedLocus(line).value;
    match line.signal
    case Some(v) => v * (Abs(l.end - l.start) as real)
    case None => 0.0
  }

  /** `signalDict`: id to weighted signal, lines without a numeric signal skipped, the
      later of two lines with one id winning. */
  function SignalDict(lines: seq<MappedRow>): map<string, real>
    requires AllParse(lines)
    decreases |lines|
  {
    if lines == [] then map[]
    else
      var pre := lines[..|lines| - 1];
      var line := lines[|lines| - 1];
      var d := SignalDict(pre);
      if line.signal.Some? then d[line.id := Weight(line)] else d
  }

  /** `defaultdict(float)` lookup. */
  function Lookup(d: map<string, real>, id: string): real {
    if id in d then d[id] else 0.0
  }

  function SumSignals(regions: seq<Locus>, d: map<string, real>): real
    decreases |regions|
  {
    if regions == [] then 0.0
    else SumSignals(regions[..|regions| - 1], d) + Lookup(d, regions[|regions| - 1].id)
  }

  /** The query locus of a table row: its chromosome and span, strand `.`. */
  function LineLocus(row: RegionRow): Locus {
    Locus(row.chr, row.start, row.stop, ".", "")
  }

  /** The signal of a region in one sample: the dictionary values of the mapped
      regions overlapping it, summed. */
  function RegionSignal(query: Locus, mappedLoci: seq<Locus>, d: map<string, real>): real {
    SumSignals(GetOverlap(mappedLoci, query), d)
  }

  function WithSignal(row: RegionRow, mappedLoci: seq<Locus>, d: map<string, real>): RegionRow {
    row.(signals := row.signals + [RegionSignal(LineLocus(row), mappedLoci, d)])
  }

  function AddSignalColumn(rows: seq<RegionRow>, mappedLoci: seq<Locus>, d: map<string, real>): (r: seq<RegionRow>)
    ensures |r| == |rows| && forall i :: 0 <= i < |rows| ==> r[i] == WithSignal(rows[i], mappedLoci, d)
    decreases |rows|
  {
    if rows == [] then []
    else AddSignalColumn(rows[..|rows| - 1], mappedLoci, d) + [WithSignal(rows[|rows| - 1], mappedLoci, d)]
  }

  /** The two errors the coordinate parse can raise. */
  const UnparsableCoordinates: string := "ValueError: invalid literal for int() with base 10"
  const MissingEnd: string := "IndexError: list index out of range"

  /** The error an unreadable coordinate raises, in the order the start and end are
      read: the start's `int()` first, then the indexing of the end, then the end's
      `int()`. */
  function CoordinateError(coords: string): string {
    var span := Split(Last(Split(coords, ':')), '-');
    if ParseNat(span[0]).Some? && |span| < 2 then MissingEnd else UnparsableCoordinates
  }

  /** A coordinate that stops after its start, as in `chr1(+):100`, fails on the
      missing end with the indexing error. */
  lemma StartOnlyCoordinates(head: string, n: nat)
    ensures ParseCoordinates(head + ":" + NatToString(n)).None?
    ensures CoordinateError(head + ":" + NatToString(n)) == MissingEnd
  {
    var a := NatToString(n);
    assert head + ":" + a == head + [':'] + a;
    NatStringHasNoSeparator(n, ':');
    NatStringHasNoSeparator(n, '-');
    LastPieceAfterSeparator(head, a, ':');
    SplitNoSeparator(a, '-');
    ParseNatToString(n);
  }

  /** A coordinate whose start is not a number fails with the `int()` error, even
      when an end follows. */
  lemma BadStartCoordinates(head: string, a: string, b: string)
    requires ':' !in a && ':' !in b && '-' !in a && !IsDigits(a)
    ensures ParseCoordinates(head + ":" + a + "-" + b).None?
    ensures CoordinateError(head + ":" + a + "-" + b) == UnparsableCoordinates
  {
    var q := a + "-" + b;
    assert head + ":" + a + "-" + b == head + [':'] + q;
    assert ':' !in q;
    LastPieceAfterSeparator(head, q, ':');
    assert q == a + ['-'] + b;
    SplitAtSeparator(a, b, '-');
  }

  /** The error of the first unreadable line of a mapped GFF. */
  function LineError(lines: seq<MappedRow>): string
    requires !AllParse(lines)
    decreases |lines|
  {
    var pre := lines[..|lines| - 1];
    if AllParse(pre) then CoordinateError(lines[|lines| - 1].coords) else LineError(pre)
  }

  /** When line `i` is the first unreadable one, the file is unreadable and its error
      is that line's. */
  lemma {:induction false} LineErrorAt(lines: seq<MappedRow>, i: nat)
    requires i < |lines| && AllParse(lines[..i]) && MappedLocus(lines[i]).None?
    ensures !AllParse(lines)
    ensures LineError(lines) == CoordinateError(lines[i].coords)
    decreases |lines|
  {
    var pre := lines[..|lines| - 1];
    if i == |lines| - 1 {
      assert pre == lines[..i];
    } else {
      assert pre[..i] == lines[..i] && pre[i] == lines[i];
      LineErrorAt(pre, i);
    }
  }

  /** One sample: its name in the header and the data lines of its mapped GFF. */
  datatype Sample = Sample(name: string, lines: seq<MappedRow>)

  /** The samples in list order, each read from
      `<folder><ref>_<bam name>_MAPPED.gff` by `readMapped`. */
  function Samples(bams: seq<string>, mappedFolder: string, refName: string, readMapped: string -> seq<MappedRow>)
    : (samples: seq<Sample>)
    ensures |samples| == |bams|
    ensures forall k :: 0 <= k < |bams| ==>
      samples[k] == Sample(Basename(bams[k]), DataLines(readMapped(MappedPath(mappedFolder, refName, Basename(bams[k])))))
  {
    seq(|bams|, k requires 0 <= k < |bams| =>
      Sample(Basename(bams[k]), DataLines(readMapped(MappedPath(mappedFolder, refName, Basename(bams[k]))))))
  }

  /** What one sample contributes once its lines are read: the mapped collection and
      the signal dictionary. */
  datatype SignalData = SignalData(name: string, loci: seq<Locus>, dict: map<string, real>)

  function ParseSample(sample: Sample): Result<SignalData> {
    if AllParse(sample.lines) then Success(SignalData(sample.name, MappedLoci(sample.lines), SignalDict(sample.lines)))
    else Failure(LineError(sample.lines))
  }

  /** Every sample read in turn; the run stops at an unreadable coordinate. */
  function ParseSamples(samples: seq<Sample>): Result<seq<SignalData>>
    decreases |samples|
  {
    if samples == [] then Success([])
    else
      match ParseSamples(samples[..|samples| - 1])
      case Failure(e) => Failure(e)
      case Success(ps) =>
        match ParseSample(samples[|samples| - 1])
        case Failure(e) => Failure(e)
        case Success(p) => Success(ps + [p])
  }

  /** Reading one sample more succeeds exactly when the earlier ones and it read, and
      then appends its entry, named after it. */
  lemma ParseSamplesSnoc(samples: seq<Sample>)
    requires samples != []
    ensures var pre, last := samples[..|samples| - 1], samples[|samples| - 1];
      && (ParseSamples(samples).Success? <==> ParseSamples(pre).Success? && AllParse(last.lines))
      && (ParseSamples(samples).Success? ==>
            ParseSample(last).Success? && ParseSample(last).value.name == last.name &&
            ParseSamples(samples).value == ParseSamples(pre).value + [ParseSample(last).value])
  {
  }

  /** Reading the samples fails exactly when some sample has an unreadable line. */
  lemma {:induction false} ParseSamplesIff(samples: seq<Sample>)
    ensures ParseSamples(samples).Success? <==> forall k :: 0 <= k < |samples| ==> AllParse(samples[k].lines)
    decreases |samples|
  {
    if samples != [] {
      var pre := samples[..|samples| - 1];
      ParseSamplesIff(pre);
      ParseSamplesSnoc(samples);
      if ParseSamples(samples).Success? {
        forall k | 0 <= k < |samples| ensures AllParse(samples[k].lines) {
          if k < |pre| {
            assert samples[k] == pre[k];
          }
        }
      } else if ParseSamples(pre).Success? {
        assert !AllParse(samples[|samples| - 1].lines);
      } else {
        var k :| 0 <= k < |pre| && !AllParse(pre[k].lines);
        assert samples[k] == pre[k];
      }
    }
  }

  /** The run stops at the first unreadable sample, with the error of its first
      unreadable line. */
  lemma {:induction false} ParseSamplesError(samples: seq<Sample>, k: nat)
    requires k < |samples| && !AllParse(samples[k].lines)
    requires forall k' :: 0 <= k' < k ==> AllParse(samples[k'].lines)
    ensures ParseSamples(samples) == Failure(LineError(samples[k].lines))
    decreases |samples|
  {
    var pre := samples[..|samples| - 1];
    if k == |samples| - 1 {
      ParseSamplesIff(pre);
      assert forall k' :: 0 <= k' < |pre| ==> pre[k'] == samples[k'];
    } else {
      assert forall k' :: 0 <= k' <= k ==> pre[k'] == samples[k'];
      ParseSamplesError(pre, k);
    }
  }

  /** A successful read yields one entry per sample, named after it. */
  lemma {:induction false} ParseSamplesNames(samples: seq<Sample>)
    requires ParseSamples(samples).Success?
    ensures |ParseSamples(samples).value| == |samples|
    ensures forall k :: 0 <= k < |samples| ==> ParseSamples(samples).value[k].name == samples[k].name
    decreases |samples|
  {
    if samples != [] {
      var pre := samples[..|samples| - 1];
      ParseSamplesNames(pre);
      ParseSamplesSnoc(samples);
      assert forall k :: 0 <= k < |pre| ==> pre[k] == samples[k];
    }
  }

  /** The `k`-th entry of a successful read is what reading the `k`-th sample gives. */
  lemma {:induction false} ParseSamplesAt(samples: seq<Sample>, k: nat)
    requires ParseSamples(samples).Success? && k < |samples|
    ensures |ParseSamples(samples).value| == |samples|
    ensures ParseSample(samples[k]) == Success(ParseSamples(samples).value[k])
    decreases |samples|
  {
    var pre := samples[..|samples| - 1];
    ParseSamplesNames(pre);
    ParseSamplesNames(samples);
    if k < |pre| {
      ParseSamplesAt(pre, k);
      assert pre[k] == samples[k];
    }
  }

  /** The column of one read sample: its name in the header, its signal in every row. */
  function AddColumn(table: LocusTable, p: SignalData): (t: LocusTable)
    ensures t.header == table.header + [p.name]
    ensures |t.rows| == |table.rows|
    ensures forall i :: 0 <= i < |table.rows| ==>
      t.rows[i] == table.rows[i].(signals := table.rows[i].signals + [RegionSignal(LineLocus(table.rows[i]), p.loci, p.dict)])
  {
    LocusTable(table.header + [p.name], AddSignalColumn(table.rows, p.loci, p.dict))
  }

  /** The table after one column per read sample, in sample order. */
  function AddColumns(table: LocusTable, ps: seq<SignalData>): LocusTable
    decreases |ps|
  {
    if ps == [] then table else AddColumn(AddColumns(table, ps[..|ps| - 1]), ps[|ps| - 1])
  }

  function SampleNames(ps: seq<SignalData>): (names: seq<string>)
    ensures |names| == |ps| && forall k :: 0 <= k < |ps| ==> names[k] == ps[k].name
    decreases |ps|
  {
    if ps == [] then [] else SampleNames(ps[..|ps| - 1]) + [ps[|ps| - 1].name]
  }

  /** The header gains the sample names in sample order; the rows stay as many. */
  lemma {:induction false} AddColumnsHeader(table: LocusTable, ps: seq<SignalData>)
    ensures AddColumns(table, ps).header == table.header + SampleNames(ps)
    ensures |AddColumns(table, ps).rows| == |table.rows|
    decreases |ps|
  {
    if ps != [] {
      var pre := ps[..|ps| - 1];
      AddColumnsHeader(table, pre);
    }
  }

  /** The signal of one region in every read sample, in sample order. */
  function SignalsOver(query: Locus, ps: seq<SignalData>): (signals: seq<real>)
    ensures |signals| == |ps|
    ensures forall k :: 0 <= k < |ps| ==> signals[k] == RegionSignal(query, ps[k].loci, ps[k].dict)
    decreases |ps|
  {
    if ps == [] then []
    else SignalsOver(query, ps[..|ps| - 1]) + [RegionSignal(query, ps[|ps| - 1].loci, ps[|ps| - 1].dict)]
  }

  /** A row keeps its region columns and earlier signals and gains one signal per
      sample, the `k`-th being that sample's signal over the row's span. */
  lemma {:induction false} AddColumnsRow(table: LocusTable, ps: seq<SignalData>, i: nat)
    requires i < |table.rows|
    ensures |AddColumns(table, ps).rows| == |table.rows|
    ensures AddColumns(table, ps).rows[i].(signals := table.rows[i].signals) == table.rows[i]
    ensures AddColumns(table, ps).rows[i].signals == table.rows[i].signals + SignalsOver(LineLocus(table.rows[i]), ps)
    decreases |ps|
  {
    AddColumnsHeader(table, ps);
    if ps != [] {
      var pre := ps[..|ps| - 1];
      var p := ps[|ps| - 1];
      AddColumnsRow(table, pre, i);
      AddColumnsHeader(table, pre);
      var before := AddColumns(table, pre).rows[i];
      assert AddColumns(table, ps).rows[i] == before.(signals := before.signals + [RegionSignal(LineLocus(before), p.loci, p.dict)]);
      assert LineLocus(before) == LineLocus(table.rows[i]);
      assert SignalsOver(LineLocus(table.rows[i]), ps) ==
        SignalsOver(LineLocus(table.rows[i]), pre) + [RegionSignal(LineLocus(table.rows[i]), p.loci, p.dict)];
    }
  }

  /** The whole table `mapCollection` writes, or the error that stops it. */
  function MappedTable(
    stitched: seq<Locus>, referenceCollection: seq<Locus>, bams: seq<string>,
    mappedFolder: string, refName: string, readMapped: string -> seq<MappedRow>): Result<LocusTable>
  {
    match ParseSamples(Samples(bams, mappedFolder, refName, readMapped))
    case Failure(e) => Failure(e)
    case Success(ps) => Success(AddColumns(LocusTable(BaseHeader, RegionRows(OrderedLoci(stitched), referenceCollection)), ps))
  }

  /** The lines of the mapped GFF of one bam file. */
  function SampleFileLines(bam: string, mappedFolder: string, refName: string, readMapped: string -> seq<MappedRow>)
    : seq<MappedRow>
  {
    DataLines(readMapped(MappedPath(mappedFolder, refName, Basename(bam))))
  }

  /** `mapCollection` fails exactly when the mapped GFF of some bam file has an
      unreadable coordinate. */
  lemma MappedTableFailsIff(
    stitched: seq<Locus>, referenceCollection: seq<Locus>, bams: seq<string>,
    mappedFolder: string, refName: string, readMapped: string -> seq<MappedRow>)
    ensures MappedTable(stitched, referenceCollection, bams, mappedFolder, refName, readMapped).Failure? <==>
      exists k :: 0 <= k < |bams| && !AllParse(SampleFileLines(bams[k], mappedFolder, refName, readMapped))
  {
    var samples := Samples(bams, mappedFolder, refName, readMapped);
    ParseSamplesIff(samples);
    assert forall k :: 0 <= k < |bams| ==> samples[k].lines == SampleFileLines(bams[k], mappedFolder, refName, readMapped);
  }

  /** When the `k`-th bam file is the first whose mapped GFF has an unreadable
      coordinate, `mapCollection` stops with the error of that file's first
      unreadable line. */
  lemma MappedTableError(
    stitched: seq<Locus>, referenceCollection: seq<Locus>, bams: seq<string>,
    mappedFolder: string, refName: string, readMapped: string -> seq<MappedRow>, k: nat)
    requires k < |bams| && !AllParse(SampleFileLines(bams[k], mappedFolder, refName, readMapped))
    requires forall k' :: 0 <= k' < k ==> AllParse(SampleFileLines(bams[k'], mappedFolder, refName, readMapped))
    ensures MappedTable(stitched, referenceCollection, bams, mappedFolder, refName, readMapped) ==
      Failure(LineError(SampleFileLines(bams[k], mappedFolder, refName, readMapped)))
  {
    var samples := Samples(bams, mappedFolder, refName, readMapped);
    assert forall k' :: 0 <= k' < |bams| ==> samples[k'].lines == SampleFileLines(bams[k'], mappedFolder, refName, readMapped);
    ParseSamplesError(samples, k);
  }

  /** The file name of every bam file, in list order. */
  function Basenames(bams: seq<string>): (names: seq<string>)
    ensures |names| == |bams| && forall k :: 0 <= k < |bams| ==> names[k] == Basename(bams[k])
    decreases |bams|
  {
    if bams == [] then [] else Basenames(bams[..|bams| - 1]) + [Basename(bams[|bams| - 1])]
  }

  /** The header is the six fixed columns followed by one bam file name per sample. */
  lemma MappedTableHeader(
    stitched: seq<Locus>, referenceCollection: seq<Locus>, bams: seq<string>,
    mappedFolder: string, refName: string, readMapped: string -> seq<MappedRow>)
    requires MappedTable(stitched, referenceCollection, bams, mappedFolder, refName, readMapped).Success?
    ensures MappedTable(stitched, referenceCollection, bams, mappedFolder, refName, readMapped).value.header ==
      BaseHeader + Basenames(bams)
    ensures |MappedTable(stitched, referenceCollection, bams, mappedFolder, refName, readMapped).value.rows| ==
      |OrderedLoci(stitched)|
  {
    var samples := Samples(bams, mappedFolder, refName, readMapped);
    ParseSamplesNames(samples);
    var ps := ParseSamples(samples).value;
    var base := LocusTable(BaseHeader, RegionRows(OrderedLoci(stitched), referenceCollection));
    AddColumnsHeader(base, ps);
    assert forall k :: 0 <= k < |bams| ==> ps[k].name == Basename(bams[k]);
    assert SampleNames(ps) == Basenames(bams);
  }

  /** Row `i` describes the `i`-th region in table order: its id, chromosome, span,
      stitch count and constituent size, followed by one signal per sample. */
  lemma MappedTableRow(
    stitched: seq<Locus>, referenceCollection: seq<Locus>, bams: seq<string>,
    mappedFolder: string, refName: string, readMapped: string -> seq<MappedRow>, i: nat)
    requires MappedTable(stitched, referenceCollection, bams, mappedFolder, refName, readMapped).Success?
    requires i < |OrderedLoci(stitched)|
    ensures |MappedTable(stitched, referenceCollection, bams, mappedFolder, refName, readMapped).value.rows| ==
      |OrderedLoci(stitched)|
    ensures MappedTable(stitched, referenceCollection, bams, mappedFolder, refName, readMapped).value.rows[i].(signals := []) ==
      RegionRow(OrderedLoci(stitched)[i].id, OrderedLoci(stitched)[i].chr, OrderedLoci(stitched)[i].start,
                OrderedLoci(stitched)[i].end, StitchCount(OrderedLoci(stitched)[i].id),
                SumLen(GetOverlap(referenceCollection, OrderedLoci(stitched)[i])), [])
    ensures |MappedTable(stitched, referenceCollection, bams, mappedFolder, refName, readMapped).value.rows[i].signals| == |bams|
  {
    var samples := Samples(bams, mappedFolder, refName, readMapped);
    ParseSamplesNames(samples);
    var ps := ParseSamples(samples).value;
    var base := LocusTable(BaseHeader, RegionRows(OrderedLoci(stitched), referenceCollection));
    AddColumnsHeader(base, ps);
    AddColumnsRow(base, ps, i);
  }

  /** No row of the table is on the ignored chromosome, and the rows run from the
      longest region to the shortest. */
  lemma MappedTableOrdered(
    stitched: seq<Locus>, referenceCollection: seq<Locus>, bams: seq<string>,
    mappedFolder: string, refName: string, readMapped: string -> seq<MappedRow>, i: nat, j: nat)
    requires MappedTable(stitched, referenceCollection, bams, mappedFolder, refName, readMapped).Success?
    requires i < j < |MappedTable(stitched, referenceCollection, bams, mappedFolder, refName, readMapped).value.rows|
    ensures MappedTable(stitched, referenceCollection, bams, mappedFolder, refName, readMapped).value.rows[i].chr != IgnoredChromosome
    ensures MappedTable(stitched, referenceCollection, bams, mappedFolder, refName, readMapped).value.rows[j].chr != IgnoredChromosome
    ensures var rows := MappedTable(stitched, referenceCollection, bams, mappedFolder, refName, readMapped).value.rows;
      rows[i].stop - rows[i].start >= rows[j].stop - rows[j].start
  {
    var ordered := OrderedLoci(stitched);
    MappedTableHeader(stitched, referenceCollection, bams, mappedFolder, refName, readMapped);
    MappedTableRow(stitched, referenceCollection, bams, mappedFolder, refName, readMapped, i);
    MappedTableRow(stitched, referenceCollection, bams, mappedFolder, refName, readMapped, j);
    assert ordered[i] in ordered && ordered[j] in ordered;
    assert Len(ordered[i]) >= Len(ordered[j]);
  }

  /** The `k`-th signal of row `i` is the signal of the row's region in the mapped GFF
      of the `k`-th bam file. */
  lemma MappedTableSignal(
    stitched: seq<Locus>, referenceCollection: seq<Locus>, bams: seq<string>,
    mappedFolder: string, refName: string, readMapped: string -> seq<MappedRow>, i: nat, k: nat)
    requires MappedTable(stitched, referenceCollection, bams, mappedFolder, refName, readMapped).Success?
    requires i < |OrderedLoci(stitched)| && k < |bams|
    ensures AllParse(SampleFileLines(bams[k], mappedFolder, refName, readMapped))
    ensures |MappedTable(stitched, referenceCollection, bams, mappedFolder, refName, readMapped).value.rows| ==
      |OrderedLoci(stitched)|
    ensures |MappedTable(stitched, referenceCollection, bams, mappedFolder, refName, readMapped).value.rows[i].signals| == |bams|
    ensures MappedTable(stitched, referenceCollection, bams, mappedFolder, refName, readMapped).value.rows[i].signals[k] ==
      RegionSignal(LineLocus(RegionRowOf(OrderedLoci(stitched)[i], referenceCollection)),
                   MappedLoci(SampleFileLines(bams[k], mappedFolder, refName, readMapped)),
                   SignalDict(SampleFileLines(bams[k], mappedFolder, refName, readMapped)))
  {
    var samples := Samples(bams, mappedFolder, refName, readMapped);
    ParseSamplesNames(samples);
    ParseSamplesAt(samples, k);
    var ps := ParseSamples(samples).value;
    var base := LocusTable(BaseHeader, RegionRows(OrderedLoci(stitched), referenceCollection));
    AddColumnsHeader(base, ps);
    AddColumnsRow(base, ps, i);
    var lines := SampleFileLines(bams[k], mappedFolder, refName, readMapped);
    assert samples[k] == Sample(Basename(bams[k]), lines);
    assert ParseSample(samples[k]) == Success(ps[k]);
    assert ps[k].loci == MappedLoci(lines) && ps[k].dict == SignalDict(lines);
  }

  // --------------------------------------------------------- signal as a weighted sum

  /** The sum of the weights of the mapped lines whose locus overlaps `query`. */
  function WeightedOverlap(lines: seq<MappedRow>, query: Locus): real
    requires AllParse(lines)
    decreases |lines|
  {
    if lines == [] then 0.0
    else
      var line := lines[|lines| - 1];
      WeightedOverlap(lines[..|lines| - 1], query) +
        (if Overlaps(MappedLocus(line).value, query) then Weight(line) else 0.0)
  }

  predicate DistinctIds(lines: seq<MappedRow>) {
    forall i, j :: 0 <= i < j < |lines| ==> lines[i].id != lines[j].id
  }

  lemma {:induction false} SumSignalsAppend(a: seq<Locus>, b: seq<Locus>, d: map<string, real>)
    ensures SumSignals(a + b, d) == SumSignals(a, d) + SumSignals(b, d)
    decreases |b|
  {
    if b == [] {
      assert a + b == a;
    } else {
      var b' := b[..|b| - 1];
      SumSignalsAppend(a, b', d);
      assert (a + b)[..|a + b| - 1] == a + b';
    }
  }

  lemma {:induction false} SumSignalsIgnores(regions: seq<Locus>, d: map<string, real>, k: string, v: real)
    requires forall x :: x in regions ==> x.id != k
    ensures SumSignals(regions, d[k := v]) == SumSignals(regions, d)
    decreases |regions|
  {
    if regions != [] {
      SumSignalsIgnores(regions[..|regions| - 1], d, k, v);
    }
  }

  /** Every key of the signal dictionary is the id of some line. */
  lemma {:induction false} SignalDictKeys(lines: seq<MappedRow>, k: string)
    requires AllParse(lines)
    requires k in SignalDict(lines)
    ensures exists j :: 0 <= j < |lines| && lines[j].id == k
    decreases |lines|
  {
    var pre := lines[..|lines| - 1];
    var line := lines[|lines| - 1];
    if k != line.id {
      SignalDictKeys(pre, k);
      var j :| 0 <= j < |pre| && pre[j].id == k;
      assert lines[j] == pre[j];
    }
  }

  /** A mapped locus carries the id of its line. */
  lemma MappedLocusId(line: MappedRow)
    requires MappedLocus(line).Some?
    ensures MappedLocus(line).value.id == line.id
  {
  }

  lemma MappedOverlapIds(lines: seq<MappedRow>, query: Locus, x: Locus)
    requires AllParse(lines)
    requires x in GetOverlap(MappedLoci(lines), query)
    ensures exists j :: 0 <= j < |lines| && lines[j].id == x.id
  {
    var loci := MappedLoci(lines);
    assert x in loci;
    var j :| 0 <= j < |loci| && loci[j] == x;
    MappedLocusId(lines[j]);
  }

  lemma GetOverlapSnoc(coll: seq<Locus>, l: Locus, query: Locus)
    ensures GetOverlap(coll + [l], query) == GetOverlap(coll, query) + (if Overlaps(l, query) then [l] else [])
  {
    assert (coll + [l])[..|coll|] == coll;
  }

  /** The regions of the earlier lines that overlap a query carry ids other than the
      last line's. */
  lemma EarlierOverlapIds(lines: seq<MappedRow>, query: Locus)
    requires lines != [] && AllParse(lines) && DistinctIds(lines)
    ensures forall x :: x in GetOverlap(MappedLoci(lines[..|lines| - 1]), query) ==> x.id != lines[|lines| - 1].id
  {
    var pre := lines[..|lines| - 1];
    forall x | x in GetOverlap(MappedLoci(pre), query)
      ensures x.id != lines[|lines| - 1].id
    {
      MappedOverlapIds(pre, query, x);
      var m :| 0 <= m < |pre| && pre[m].id == x.id;
      assert lines[m] == pre[m];
    }
  }

  /** The last line's dictionary entry is its weight: its own signal when numeric,
      and otherwise the `defaultdict` zero, since no earlier line has its id. */
  lemma LastLineLookup(lines: seq<MappedRow>)
    requires lines != [] && AllParse(lines) && DistinctIds(lines)
    ensures Lookup(SignalDict(lines), lines[|lines| - 1].id) == Weight(lines[|lines| - 1])
  {
    var pre := lines[..|lines| - 1];
    var line := lines[|lines| - 1];
    if line.id in SignalDict(pre) {
      SignalDictKeys(pre, line.id);
      assert false;
    }
  }

  /** The earlier regions' lookups are not affected by the last line. */
  lemma EarlierSumUnchanged(lines: seq<MappedRow>, query: Locus)
    requires lines != [] && AllParse(lines) && DistinctIds(lines)
    ensures SumSignals(GetOverlap(MappedLoci(lines[..|lines| - 1]), query), SignalDict(lines)) ==
            SumSignals(GetOverlap(MappedLoci(lines[..|lines| - 1]), query), SignalDict(lines[..|lines| - 1]))
  {
    var pre := lines[..|lines| - 1];
    var line := lines[|lines| - 1];
    if line.signal.Some? {
      EarlierOverlapIds(lines, query);
      SumSignalsIgnores(GetOverlap(MappedLoci(pre), query), SignalDict(pre), line.id, Weight(line));
    }
  }

  /** One line more: the signal grows by the last line's weight when its locus
      overlaps the query. */
  lemma SignalStep(lines: seq<MappedRow>, query: Locus)
    requires lines != [] && AllParse(lines) && DistinctIds(lines)
    ensures RegionSignal(query, MappedLoci(lines), SignalDict(lines)) ==
      RegionSignal(query, MappedLoci(lines[..|lines| - 1]), SignalDict(lines[..|lines| - 1])) +
      (if Overlaps(MappedLocus(lines[|lines| - 1]).value, query) then Weight(lines[|lines| - 1]) else 0.0)
  {
    var pre := lines[..|lines| - 1];
    var line := lines[|lines| - 1];
    var l := MappedLocus(line).value;
    var d := SignalDict(lines);
    var front := GetOverlap(MappedLoci(pre), query);
    var back := if Overlaps(l, query) then [l] else [];
    GetOverlapSnoc(MappedLoci(pre), l, query);
    SumSignalsAppend(front, back, d);
    EarlierSumUnchanged(lines, query);
    LastLineLookup(lines);
    assert back != [] ==> SumSignals(back, d) == Lookup(d, l.id);
  }

  /** With one line per id, the signal of a region is the sum, over the mapped lines
      overlapping it, of signal times span; a line without a numeric signal adds 0. */
  lemma {:induction false} SignalIsWeightedSum(lines: seq<MappedRow>, query: Locus)
    requires AllParse(lines)
    requires DistinctIds(lines)
    ensures RegionSignal(query, MappedLoci(lines), SignalDict(lines)) == WeightedOverlap(lines, query)
    decreases |lines|
  {
    if lines != [] {
      var pre := lines[..|lines| - 1];
      assert DistinctIds(pre);
      SignalIsWeightedSum(pre, query);
      SignalStep(lines, query);
    }
  }

  // ------------------------------------------------------------ the mapping loops

  /** One readable line more extends the collection by its locus and sets its entry
      in the dictionary when its signal is a number. */
  lemma ReadLineStep(lines: seq<MappedRow>, i: nat)
    requires i < |lines| && AllParse(lines[..i]) && MappedLocus(lines[i]).Some?
    ensures AllParse(lines[..i + 1])
    ensures MappedLoci(lines[..i + 1]) == MappedLoci(lines[..i]) + [MappedLocus(lines[i]).value]
    ensures SignalDict(lines[..i + 1]) ==
      if lines[i].signal.Some? then SignalDict(lines[..i])[lines[i].id := Weight(lines[i])] else SignalDict(lines[..i])
  {
    var s := lines[..i + 1];
    assert s[..|s| - 1] == lines[..i] && s[|s| - 1] == lines[i];
  }

  /** Reads a mapped GFF's lines into its collection and signal dictionary; `ok` is
      false where the file has an unreadable coordinate, and `error` is then the error
      of the first such line. */
  method BuildSignalDict(lines: seq<MappedRow>)
    returns (ok: bool, mappedLoci: seq<Locus>, signalDict: map<string, real>, error: string)
    ensures ok == AllParse(lines)
    ensures ok ==> mappedLoci == MappedLoci(lines) && signalDict == SignalDict(lines)
    ensures !ok ==> error == LineError(lines)
  {
    error := "";
    mappedLoci := [];
    signalDict := map[];
    var i := 0;
    while i < |lines|
      invariant 0 <= i <= |lines|
      invariant AllParse(lines[..i])
      invariant mappedLoci == MappedLoci(lines[..i])
      invariant signalDict == SignalDict(lines[..i])
    {
      var line := lines[i];
      var parsed := MappedLocus(line);
      if parsed.None? {
        LineErrorAt(lines, i);
        return false, [], map[], CoordinateError(line.coords);
      }
      var locus := parsed.value;
      ReadLineStep(lines, i);
      assert Weight(line) == if line.signal.Some? then line.signal.value * (Abs(locus.end - locus.start) as real) else 0.0;
      mappedLoci := mappedLoci + [locus];
      if line.signal.Some? {
        signalDict := signalDict[line.id := line.signal.value * (Abs(locus.end - locus.start) as real)];
      }
      i := i + 1;
    }
    assert lines[..i] == lines;
    ok := true;
  }

  /** The signal of one table row in one sample. */
  method RowSignal(lineLocus: Locus, mappedLoci: seq<Locus>, signalDict: map<string, real>) returns (signal: real)
    ensures signal == RegionSignal(lineLocus, mappedLoci, signalDict)
  {
    var overlappingRegions := GetOverlap(mappedLoci, lineLocus);
    signal := 0.0;
    var k := 0;
    while k < |overlappingRegions|
      invariant 0 <= k <= |overlappingRegions|
      invariant signal == SumSignals(overlappingRegions[..k], signalDict)
    {
      assert overlappingRegions[..k + 1][..k] == overlappingRegions[..k];
      signal := signal + Lookup(signalDict, overlappingRegions[k].id);
      k := k + 1;
    }
    assert overlappingRegions[..k] == overlappingRegions;
  }

  /** Appends one sample's signal to every row. */
  method AppendSignalColumn(rows: seq<RegionRow>, mappedLoci: seq<Locus>, signalDict: map<string, real>)
    returns (newRows: seq<RegionRow>)
    ensures newRows == AddSignalColumn(rows, mappedLoci, signalDict)
  {
    newRows := rows;
    var i := 0;
    while i < |rows|
      invariant 0 <= i <= |rows|
      invariant |newRows| == |rows|
      invariant forall j :: 0 <= j < i ==> newRows[j] == WithSignal(rows[j], mappedLoci, signalDict)
      invariant forall j :: i <= j < |rows| ==> newRows[j] == rows[j]
    {
      var line := newRows[i];
      var signal := RowSignal(LineLocus(line), mappedLoci, signalDict);
      newRows := newRows[i := line.(signals := line.signals + [signal])];
      i := i + 1;
    }
  }

  /** The chrY loop: each region on the ignored chromosome is removed from the list. */
  method StripIgnoredChromosome(stitchedCollection: seq<Locus>) returns (loci: seq<Locus>)
    ensures loci == DropChrY(stitchedCollection)
  {
    loci := stitchedCollection;
    var i := 0;
    while i < |stitchedCollection|
      invariant 0 <= i <= |stitchedCollection|
      invariant loci == DropChrY(stitchedCollection[..i]) + stitchedCollection[i..]
    {
      if stitchedCollection[i].chr == IgnoredChromosome {
        DropChrYRemove(stitchedCollection, i);
        loci := RemoveFirst(loci, stitchedCollection[i]);
      } else {
        DropChrYKeep(stitchedCollection, i);
      }
      i := i + 1;
    }
    assert stitchedCollection[..i] == stitchedCollection;
  }

  /** The fixed columns of every row, in table order. */
  method RegionColumns(ordered: seq<Locus>, referenceCollection: seq<Locus>) returns (rows: seq<RegionRow>)
    ensures rows == RegionRows(ordered, referenceCollection)
  {
    rows := [];
    var k := 0;
    while k < |ordered|
      invariant 0 <= k <= |ordered|
      invariant rows == RegionRows(ordered[..k], referenceCollection)
    {
      var locus := ordered[k];
      var refEnrichSize := ConstituentSize(referenceCollection, locus);
      var stitchCount := StitchCount(locus.id);
      rows := rows + [RegionRow(locus.id, locus.chr, locus.start, locus.end, stitchCount, refEnrichSize, [])];
      k := k + 1;
    }
    assert ordered[..k] == ordered;
  }

  /** One step of the sample loop on a readable sample: it extends the read prefix. */
  lemma ParseSamplesExtend(samples: seq<Sample>, b: nat, parsed: seq<SignalData>, p: SignalData)
    requires b < |samples|
    requires ParseSamples(samples[..b]) == Success(parsed)
    requires ParseSample(samples[b]) == Success(p)
    ensures ParseSamples(samples[..b + 1]) == Success(parsed + [p])
  {
    var s1 := samples[..b + 1];
    assert s1[..|s1| - 1] == samples[..b];
    assert s1[|s1| - 1] == samples[b];
  }

  /** One step of the sample loop on an unreadable sample after readable ones: the
      whole run fails with that sample's error. */
  lemma ParseSamplesStop(samples: seq<Sample>, b: nat, parsed: seq<SignalData>)
    requires b < |samples|
    requires ParseSamples(samples[..b]) == Success(parsed)
    requires !AllParse(samples[b].lines)
    ensures ParseSamples(samples) == Failure(LineError(samples[b].lines))
  {
    ParseSamplesIff(samples[..b]);
    assert forall k :: 0 <= k < b ==> samples[..b][k] == samples[k];
    ParseSamplesError(samples, b);
  }

  lemma AddColumnsSnoc(base: LocusTable, parsed: seq<SignalData>, p: SignalData)
    ensures AddColumns(base, parsed + [p]) == AddColumn(AddColumns(base, parsed), p)
  {
    assert (parsed + [p])[..|parsed|] == parsed;
  }

  /** The sample loop: one column per sample, stopping at an unreadable mapped GFF. */
  method SampleColumns(
    base: LocusTable, bamFileList: seq<string>, mappedFolder: string, refName: string, readMapped: string -> seq<MappedRow>)
    returns (locusTable: Result<LocusTable>)
    ensures ParseSamples(Samples(bamFileList, mappedFolder, refName, readMapped)).Failure? ==>
      locusTable == Failure(ParseSamples(Samples(bamFileList, mappedFolder, refName, readMapped)).error)
    ensures ParseSamples(Samples(bamFileList, mappedFolder, refName, readMapped)).Success? ==>
      locusTable == Success(AddColumns(base, ParseSamples(Samples(bamFileList, mappedFolder, refName, readMapped)).value))
  {
    var header := base.header;
    var rows := base.rows;
    ghost var samples := Samples(bamFileList, mappedFolder, refName, readMapped);
    ghost var parsed: seq<SignalData> := [];
    var b := 0;
    while b < |bamFileList|
      invariant 0 <= b <= |bamFileList|
      invariant ParseSamples(samples[..b]) == Success(parsed)
      invariant LocusTable(header, rows) == AddColumns(base, parsed)
    {
      var bamFileName := Basename(bamFileList[b]);
      var mappedGFF := readMapped(MappedPath(mappedFolder, refName, bamFileName));
      var lines := DataLines(mappedGFF);
      assert samples[b] == Sample(bamFileName, lines);
      var ok, mappedLoci, signalDict, error := BuildSignalDict(lines);
      if !ok {
        ParseSamplesStop(samples, b, parsed);
        return Failure(error);
      }
      ghost var data := SignalData(bamFileName, mappedLoci, signalDict);
      assert ParseSample(samples[b]) == Success(data);
      ParseSamplesExtend(samples, b, parsed, data);
      AddColumnsSnoc(base, parsed, data);
      parsed := parsed + [data];
      header := header + [bamFileName];
      rows := AppendSignalColumn(rows, mappedLoci, signalDict);
      b := b + 1;
    }
    assert samples[..b] == samples;
    locusTable := Success(LocusTable(header, rows));
  }

  /** `mapCollection`: the region table of the stitched regions, one signal column
      per sample, with the mapped GFFs read through `readMapped`. */
  method MapCollection(
    stitchedCollection: seq<Locus>, referenceCollection: seq<Locus>, bamFileList: seq<string>,
    mappedFolder: string, refName: string, readMapped: string -> seq<MappedRow>)
    returns (locusTable: Result<LocusTable>)
    ensures locusTable == MappedTable(stitchedCollection, referenceCollection, bamFileList, mappedFolder, refName, readMapped)
  {
    var loci := StripIgnoredChromosome(stitchedCollection);
    var ordered := SortByLength(loci);
    var rows := RegionColumns(ordered, referenceCollection);
    locusTable := SampleColumns(LocusTable(BaseHeader, rows), bamFileList, mappedFolder, refName, readMapped);
  }
}
