/**
  Converters that turn BED and GTF region files into the nine-column GFF3 form
  the pipeline reads, and the GTF attribute lookup they use. Files are modelled as
  their rows (read) and as their text lines (written).
*/
module Conversion {
  import opened Wrappers
  import opened Strings

  // ------------------------------------------------------------ attribute search

  /** The text `key` ends at position `p` of `entry` (the lookbehind of the search). */
  predicate KeyEndsAt(entry: string, key: string, p: int) {
    |key| <= p <= |entry| && entry[p - |key|..p] == key
  }

  /** `re.search(key, entry)` for a key without pattern characters. */
  predicate Occurs(key: string, entry: string) {
    exists p | |key| <= p <= |entry| :: KeyEndsAt(entry, key, p)
  }

  /** A match of `(?<=key)[^"]+` can start at `p`. */
  predicate ValueStartsAt(entry: string, key: string, p: int) {
    KeyEndsAt(entry, key, p) && p < |entry| && entry[p] != '"'
  }

  /** The leftmost position at or after `from` where a value can start. */
  function FirstValueStart(entry: string, key: string, from: nat): (r: Option<nat>)
    ensures r.Some? ==> from <= r.value < |entry| && ValueStartsAt(entry, key, r.value)
    ensures r.Some? ==> forall p :: from <= p < r.value ==> !ValueStartsAt(entry, key, p)
    ensures r.None? ==> forall p :: from <= p < |entry| ==> !ValueStartsAt(entry, key, p)
    decreases |entry| - from
  {
    if from >= |entry| then None
    else if ValueStartsAt(entry, key, from) then Some(from)
    else FirstValueStart(entry, key, from + 1)
  }

  /** The greedy `[^"]+` run starting at `p`. */
  function QuoteFreeRun(entry: string, p: nat): (v: string)
    ensures '"' !in v
    ensures p + |v| <= |entry| || v == []
    ensures p < |entry| && entry[p] != '"' ==> v != []
    ensures p + |v| <= |entry| ==> entry[p..p + |v|] == v && (p + |v| == |entry| || entry[p + |v|] == '"')
    decreases |entry| - p
  {
    if p >= |entry| || entry[p] == '"' then []
    else [entry[p]] + QuoteFreeRun(entry, p + 1)
  }

  /** `search(attr, entry)`: absent (`None`) when `attr "` does not occur; otherwise
      `attr=value` for the first match of the value pattern, and the IndexError of
      `findall(...)[0]` when no match exists (as for `attr ""`). */
  function Search(attr: string, entry: string): (r: Result<Option<string>>)
    ensures r == Success(None) <==> !Occurs(attr + " \"", entry)
    ensures r.Failure? <==>
      Occurs(attr + " \"", entry) && forall p :: 0 <= p < |entry| ==> !ValueStartsAt(entry, attr + " \"", p)
    ensures r.Success? && r.value.Some? ==>
      exists p :: 0 <= p < |entry| && ValueStartsAt(entry, attr + " \"", p)
        && (forall q :: 0 <= q < p ==> !ValueStartsAt(entry, attr + " \"", q))
        && r.value.value == attr + "=" + QuoteFreeRun(entry, p)
    ensures r.Success? && r.value.Some? ==>
      exists v :: r.value.value == attr + "=" + v && v != [] && '"' !in v
  {
    var key := attr + " \"";
    if !Occurs(key, entry) then Success(None)
    else
      match FirstValueStart(entry, key, 0)
      case None => Failure("IndexError: list index out of range")
      case Some(p) => Success(Some(attr + "=" + QuoteFreeRun(entry, p)))
  }

  /** `[a for a in [search(attr, entry) for attr in attrs] if a is not None]`. */
  function Present(attrs: seq<string>, entry: string): Result<seq<string>>
    decreases |attrs|
  {
    if attrs == [] then Success([])
    else
      match (Search(attrs[0], entry), Present(attrs[1..], entry))
      case (Failure(e), _) => Failure(e)
      case (_, Failure(e)) => Failure(e)
      case (Success(o), Success(rest)) => Success((if o.Some? then [o.value] else []) + rest)
  }

  predicate Found(attr: string, entry: string) {
    Search(attr, entry).Success? && Search(attr, entry).value.Some?
  }

  /** Every position moved one place to the right. */
  function Shift(ix: seq<nat>): (r: seq<nat>)
    ensures |r| == |ix| && forall j :: 0 <= j < |ix| ==> r[j] == ix[j] + 1
    decreases |ix|
  {
    if ix == [] then [] else [ix[0] + 1] + Shift(ix[1..])
  }

  /** Whether the entry carries each attribute. */
  function FoundFlags(attrs: seq<string>, entry: string): (f: seq<bool>)
    ensures |f| == |attrs| && forall i :: 0 <= i < |attrs| ==> f[i] == Found(attrs[i], entry)
    decreases |attrs|
  {
    if attrs == [] then [] else [Found(attrs[0], entry)] + FoundFlags(attrs[1..], entry)
  }

  /** The positions of the set flags, in order. */
  function TrueIndices(f: seq<bool>): seq<nat>
    decreases |f|
  {
    if f == [] then [] else (if f[0] then [0] else []) + Shift(TrueIndices(f[1..]))
  }

  /** The positions in `attrs` of the attributes the entry carries. */
  function FoundIndices(attrs: seq<string>, entry: string): seq<nat> {
    TrueIndices(FoundFlags(attrs, entry))
  }

  lemma FoundIndicesUnfold(attrs: seq<string>, entry: string)
    requires attrs != []
    ensures FoundIndices(attrs, entry) ==
      (if Found(attrs[0], entry) then [0] else []) + Shift(FoundIndices(attrs[1..], entry))
  {
    assert FoundFlags(attrs, entry)[1..] == FoundFlags(attrs[1..], entry);
  }

  /** Each listed position holds a set flag. */
  lemma {:induction false} TrueIndexSound(f: seq<bool>, j: nat)
    requires j < |TrueIndices(f)|
    ensures TrueIndices(f)[j] < |f| && f[TrueIndices(f)[j]]
    decreases |f|
  {
    var d := if f[0] then 1 else 0;
    var rest := TrueIndices(f[1..]);
    assert TrueIndices(f) == (if f[0] then [0] else []) + Shift(rest);
    if j >= d {
      TrueIndexSound(f[1..], j - d);
      assert TrueIndices(f)[j] == rest[j - d] + 1;
      assert f[1..][rest[j - d]] == f[rest[j - d] + 1];
    }
  }

  /** The listed positions increase. */
  lemma {:induction false} TrueIndicesOrdered(f: seq<bool>, j1: nat, j2: nat)
    requires j1 < j2 < |TrueIndices(f)|
    ensures TrueIndices(f)[j1] < TrueIndices(f)[j2]
    decreases |f|
  {
    var head: seq<nat> := if f[0] then [0] else [];
    var rest := TrueIndices(f[1..]);
    assert TrueIndices(f) == head + Shift(rest);
    ShiftedAt(head, rest, j2);
    if j1 >= |head| {
      TrueIndicesOrdered(f[1..], j1 - |head|, j2 - |head|);
      ShiftedAt(head, rest, j1);
    }
  }

  /** Indexing past the head of `head + Shift(rest)`. */
  lemma ShiftedAt(head: seq<nat>, rest: seq<nat>, j: nat)
    requires |head| <= j < |head| + |rest|
    ensures (head + Shift(rest))[j] == rest[j - |head|] + 1
  {
  }

  /** Every set flag has its position listed. */
  lemma {:induction false} TrueIndicesComplete(f: seq<bool>, i: nat)
    requires i < |f| && f[i]
    ensures i in TrueIndices(f)
    decreases |f|
  {
    var d := if f[0] then 1 else 0;
    if i > 0 {
      TrueIndicesComplete(f[1..], i - 1);
      var rest := TrueIndices(f[1..]);
      var j :| 0 <= j < |rest| && rest[j] == i - 1;
      assert TrueIndices(f)[j + d] == i;
    }
  }

  /** The join of present attributes fails exactly when one of the searches raises. */
  lemma {:induction false} PresentFailsIff(attrs: seq<string>, entry: string)
    ensures Present(attrs, entry).Failure? <==> exists i :: 0 <= i < |attrs| && Search(attrs[i], entry).Failure?
    decreases |attrs|
  {
    if attrs != [] {
      PresentFailsIff(attrs[1..], entry);
      if exists i :: 0 <= i < |attrs[1..]| && Search(attrs[1..][i], entry).Failure? {
        var i :| 0 <= i < |attrs[1..]| && Search(attrs[1..][i], entry).Failure?;
        assert Search(attrs[i + 1], entry).Failure?;
      }
      if exists i :: 0 <= i < |attrs| && Search(attrs[i], entry).Failure? {
        var i :| 0 <= i < |attrs| && Search(attrs[i], entry).Failure?;
        if i > 0 { assert Search(attrs[1..][i - 1], entry).Failure?; }
      }
    }
  }

  /** The `j`-th present pair is the value of attribute `FoundIndices(attrs, entry)[j]`. */
  lemma {:induction false} PresentAtFoundIndex(attrs: seq<string>, entry: string, j: nat)
    requires Present(attrs, entry).Success?
    ensures |FoundIndices(attrs, entry)| == |Present(attrs, entry).value|
    ensures j < |FoundIndices(attrs, entry)| ==>
      FoundIndices(attrs, entry)[j] < |attrs| &&
      Search(attrs[FoundIndices(attrs, entry)[j]], entry) == Success(Some(Present(attrs, entry).value[j]))
    decreases |attrs|
  {
    if attrs != [] {
      var o := Search(attrs[0], entry).value;
      var d := if o.Some? then 1 else 0;
      var ps := Present(attrs, entry).value;
      var psr := Present(attrs[1..], entry).value;
      var rest := FoundIndices(attrs[1..], entry);
      assert ps == (if o.Some? then [o.value] else []) + psr;
      FoundIndicesUnfold(attrs, entry);
      if j >= d {
        PresentAtFoundIndex(attrs[1..], entry, j - d);
        if j < |FoundIndices(attrs, entry)| {
          assert FoundIndices(attrs, entry)[j] == rest[j - d] + 1;
          assert attrs[rest[j - d] + 1] == attrs[1..][rest[j - d]];
          assert ps[j] == psr[j - d];
        }
      } else {
        PresentAtFoundIndex(attrs[1..], entry, 0);
      }
    }
  }

  /** The present pairs are the values of the attributes at the found positions. */
  lemma PresentAtFoundIndices(attrs: seq<string>, entry: string)
    requires Present(attrs, entry).Success?
    ensures |FoundIndices(attrs, entry)| == |Present(attrs, entry).value|
    ensures forall j :: 0 <= j < |FoundIndices(attrs, entry)| ==>
      FoundIndices(attrs, entry)[j] < |attrs| &&
      Search(attrs[FoundIndices(attrs, entry)[j]], entry) == Success(Some(Present(attrs, entry).value[j]))
  {
    PresentAtFoundIndex(attrs, entry, 0);
    var fi := FoundIndices(attrs, entry);
    var pv := Present(attrs, entry).value;
    forall j | 0 <= j < |fi|
      ensures fi[j] < |attrs| && Search(attrs[fi[j]], entry) == Success(Some(pv[j]))
    {
      PresentAtFoundIndex(attrs, entry, j);
    }
  }

  /** The found positions are positions of found attributes. */
  lemma FoundIndicesSound(attrs: seq<string>, entry: string)
    ensures forall j :: 0 <= j < |FoundIndices(attrs, entry)| ==>
      FoundIndices(attrs, entry)[j] < |attrs| && Found(attrs[FoundIndices(attrs, entry)[j]], entry)
  {
    forall j | 0 <= j < |FoundIndices(attrs, entry)|
      ensures FoundIndices(attrs, entry)[j] < |attrs| && Found(attrs[FoundIndices(attrs, entry)[j]], entry)
    {
      TrueIndexSound(FoundFlags(attrs, entry), j);
    }
  }

  /** The found positions increase. */
  lemma FoundIndicesIncrease(attrs: seq<string>, entry: string)
    ensures forall j1, j2 :: 0 <= j1 < j2 < |FoundIndices(attrs, entry)| ==>
      FoundIndices(attrs, entry)[j1] < FoundIndices(attrs, entry)[j2]
  {
    forall j1, j2 | 0 <= j1 < j2 < |FoundIndices(attrs, entry)|
      ensures FoundIndices(attrs, entry)[j1] < FoundIndices(attrs, entry)[j2]
    {
      TrueIndicesOrdered(FoundFlags(attrs, entry), j1, j2);
    }
  }

  /** Every found attribute has its position among the found positions. */
  lemma FoundIndicesComplete(attrs: seq<string>, entry: string)
    ensures forall i :: 0 <= i < |attrs| && Found(attrs[i], entry) ==> i in FoundIndices(attrs, entry)
  {
    forall i | 0 <= i < |attrs| && Found(attrs[i], entry)
      ensures i in FoundIndices(attrs, entry)
    {
      TrueIndicesComplete(FoundFlags(attrs, entry), i);
    }
  }

  // ------------------------------------------------------------------ GFF3 out

  /** One row of a GFF3 file: the nine columns of the format. */
  datatype Gff3Row = Gff3Row(
    seqid: string, source: string, ftype: string, start: int, end: int,
    score: string, strand: string, phase: string, attributes: string)

  /** The two directive lines both converters write before any row. */
  const Directives: seq<string> := ["##gff-version 3", "##source-version ROSE"]

  function Fields(g: Gff3Row): seq<string> {
    [g.seqid, g.source, g.ftype, IntToString(g.start), IntToString(g.end),
     g.score, g.strand, g.phase, g.attributes]
  }

  /** A row written tab-separated, without header or index. */
  function RowLine(g: Gff3Row): string {
    Join(Fields(g), '\t')
  }

  /** The text of a written GFF3 file, line by line. */
  function Gff3Lines(rows: seq<Gff3Row>): (lines: seq<string>)
    ensures |lines| == |rows| + 2
    ensures lines[0] == "##gff-version 3" && lines[1] == "##source-version ROSE"
    ensures forall i :: 0 <= i < |rows| ==> lines[i + 2] == RowLine(rows[i])
  {
    Directives + seq(|rows|, i requires 0 <= i < |rows| => RowLine(rows[i]))
  }

  /** A written data line splits back into the row's nine fields when no
      text field holds a tab. */
  lemma RowLineSplits(g: Gff3Row)
    requires forall i :: 0 <= i < 9 && i != 3 && i != 4 ==> '\t' !in Fields(g)[i]
    ensures Split(RowLine(g), '\t') == Fields(g)
  {
    var f := Fields(g);
    assert '\t' !in IntToString(g.start) && '\t' !in IntToString(g.end) by {
      NatStringHasNoSeparator(if g.start < 0 then -g.start else g.start, '\t');
      NatStringHasNoSeparator(if g.end < 0 then -g.end else g.end, '\t');
    }
    assert forall i :: 0 <= i < |f| ==> '\t' !in f[i];
    SplitJoin(f, '\t');
  }

  // ----------------------------------------------------------------- BED to GFF3

  /** A UCSC BED row: 0-based start, exclusive end. */
  datatype BedRow = BedRow(
    chrom: string, chromStart: int, chromEnd: int, name: string, score: string, strand: string)

  /** BED base `x` (0-based) lies in the row. */
  predicate BedCovers(b: BedRow, x: int) {
    b.chromStart <= x < b.chromEnd
  }

  /** GFF3 base `x` (1-based) lies in the row. */
  predicate Gff3Covers(g: Gff3Row, x: int) {
    g.start <= x <= g.end
  }

  /** The column mapping of `bed_to_gff3`: 1-based inclusive start, `.` source and
      phase, `sequence_feature` type and the name as attribute. */
  function BedRowToGff3(b: BedRow): (g: Gff3Row)
    ensures g.end - g.start + 1 == b.chromEnd - b.chromStart
    ensures forall x: int :: BedCovers(b, x) <==> Gff3Covers(g, x + 1)
    ensures g.seqid == b.chrom && g.score == b.score && g.strand == b.strand
    ensures g.source == "." && g.phase == "." && g.ftype == "sequence_feature"
  {
    Gff3Row(b.chrom, ".", "sequence_feature", b.chromStart + 1, b.chromEnd, b.score, b.strand, ".", "name=" + b.name)
  }

  /** Reading a converted row back as BED. */
  function Gff3RowToBed(g: Gff3Row): BedRow
    requires |g.attributes| >= 5 && g.attributes[..5] == "name="
  {
    BedRow(g.seqid, g.start - 1, g.end, g.attributes[5..], g.score, g.strand)
  }

  /** The row mapping loses nothing: its rows read back to the BED rows. */
  lemma BedRowRoundTrip(b: BedRow)
    ensures var g := BedRowToGff3(b);
      |g.attributes| >= 5 && g.attributes[..5] == "name=" && Gff3RowToBed(g) == b
  {
    var g := BedRowToGff3(b);
    assert g.attributes[..5] == "name=";
    assert g.attributes[5..] == b.name;
  }

  /** The data frame `bed_to_gff3` builds: one row per BED row, in order. */
  function BedToGff3Rows(bed: seq<BedRow>): (rows: seq<Gff3Row>)
    ensures |rows| == |bed|
  {
    seq(|bed|, i requires 0 <= i < |bed| => BedRowToGff3(bed[i]))
  }

  /** The text `bed_to_gff3` writes. */
  function BedToGff3(bed: seq<BedRow>): (lines: seq<string>)
    ensures |lines| == |bed| + 2
    ensures lines[..2] == Directives
    ensures forall i :: 0 <= i < |bed| ==> lines[i + 2] == RowLine(BedRowToGff3(bed[i]))
  {
    Gff3Lines(BedToGff3Rows(bed))
  }

  // ----------------------------------------------------------------- GTF to GFF3

  /** A GTF row: nine columns, the ninth holding `key "value";` attributes. */
  datatype GtfRow = GtfRow(
    seqname: string, source: string, feature: string, start: int, end: int,
    score: string, strand: string, frame: string, attribute: string)

  /** The attribute names of a full conversion, in output order. */
  const GtfAttributes: seq<string> := [
    "gene_id", "db_xref", "gbkey", "gene", "gene_biotype", "transcript_id",
    "model_evidence", "product", "exon_number", "protein_id", "anticodon",
    "inference", "note", "exception", "transl_except", "pseudo", "partial"]

  /** The attribute names of the default conversion. */
  const IdAttributes: seq<string> := ["gene_id", "transcript_id"]

  /** The new ninth column: per row, the `;`-join of its present attributes. */
  function AttributeColumn(rows: seq<GtfRow>, attrs: seq<string>): (col: Result<seq<string>>)
    ensures col.Failure? <==> exists i :: 0 <= i < |rows| && Present(attrs, rows[i].attribute).Failure?
    ensures col.Success? ==> |col.value| == |rows|
    ensures col.Success? ==>
      forall i :: 0 <= i < |rows| ==> col.value[i] == Join(Present(attrs, rows[i].attribute).value, ';')
    decreases |rows|
  {
    if rows == [] then Success([])
    else
      match (Present(attrs, rows[0].attribute), AttributeColumn(rows[1..], attrs))
      case (Failure(e), _) => Failure(e)
      case (_, Failure(e)) =>
        assert exists i :: 0 <= i < |rows[1..]| && Present(attrs, rows[1..][i].attribute).Failure?;
        Failure(e)
      case (Success(ps), Success(rest)) =>
        assert forall i :: 1 <= i < |rows| ==> rows[i] == rows[1..][i - 1];
        Success([Join(ps, ';')] + rest)
  }

  function GtfAsGff3(r: GtfRow): Gff3Row {
    Gff3Row(r.seqname, r.source, r.feature, r.start, r.end, r.score, r.strand, r.frame, r.attribute)
  }

  /** `gtf_to_gff3`: overwrites the ninth column of the table, then writes it. */
  method GtfToGff3(input: seq<GtfRow>, full: bool := false) returns (lines: Result<seq<string>>)
    ensures var attrs := if full then GtfAttributes else IdAttributes;
      lines.Failure? <==> exists i :: 0 <= i < |input| && Present(attrs, input[i].attribute).Failure?
    ensures lines.Success? ==> |lines.value| == |input| + 2 && lines.value[..2] == Directives
    ensures lines.Success? ==> forall i :: 0 <= i < |input| ==>
      var attrs := if full then GtfAttributes else IdAttributes;
      lines.value[i + 2] ==
        RowLine(GtfAsGff3(input[i].(attribute := Join(Present(attrs, input[i].attribute).value, ';'))))
  {
    var attrs := if full then GtfAttributes else IdAttributes;
    var column := AttributeColumn(input, attrs);
    if column.Failure? {
      return Failure(column.error);
    }
    var df := input;
    df := seq(|df|, i requires 0 <= i < |df| => df[i].(attribute := column.value[i]));
    lines := Success(Gff3Lines(seq(|df|, i requires 0 <= i < |df| => GtfAsGff3(df[i]))));
  }
}
