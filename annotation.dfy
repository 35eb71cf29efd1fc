/**
  The gene-annotation table builder: a UCSC refseq table reduced to one record
  per transcript, with `start` always on the transcription-start side.
*/
module Annotation {
  import opened Strings

  /** One row of a UCSC refseq annotation file (the columns the builder reads, plus
      the coding-region columns it drops). */
  datatype RefseqRow = RefseqRow(
    name: string, chrom: string, strand: string, txStart: int, txEnd: int,
    cdsStart: int, cdsEnd: int, name2: string)

  /** A row after the six-column subset is taken. */
  datatype StartRow = StartRow(
    name: string, strand: string, chrom: string, txStart: int, txEnd: int, name2: string)

  /** A row of the finished table, under its renamed columns. */
  datatype GeneRecord = GeneRecord(
    id: string, sense: string, chr: string, start: int, end: int, name: string)

  function Names(rows: seq<StartRow>): (ns: seq<string>)
    ensures |ns| == |rows| && forall i :: 0 <= i < |rows| ==> ns[i] == rows[i].name
  {
    seq(|rows|, i requires 0 <= i < |rows| => rows[i].name)
  }

  function Ids(genes: seq<GeneRecord>): (ns: seq<string>)
    ensures |ns| == |genes| && forall i :: 0 <= i < |genes| ==> ns[i] == genes[i].id
  {
    seq(|genes|, i requires 0 <= i < |genes| => genes[i].id)
  }

  /** Keeping only the name, strand, chrom, txStart, txEnd and name2 columns. */
  function SelectColumns(table: seq<RefseqRow>): (rows: seq<StartRow>)
    ensures |rows| == |table| && forall i :: 0 <= i < |table| ==> rows[i].name == table[i].name
  {
    seq(|table|, i requires 0 <= i < |table| =>
      StartRow(table[i].name, table[i].strand, table[i].chrom, table[i].txStart, table[i].txEnd, table[i].name2))
  }

  /** `drop_duplicates(subset=["name"])`, keeping the first row of each name. */
  function DropDuplicateNames(rows: seq<StartRow>): (r: seq<StartRow>)
    ensures |r| <= |rows|
    decreases |rows|
  {
    if rows == [] then []
    else
      var r := DropDuplicateNames(rows[..|rows| - 1]);
      if rows[|rows| - 1].name in Names(rows[..|rows| - 1]) then r
      else r + [rows[|rows| - 1]]
  }

  /** A name seen in a prefix has its first occurrence there. */
  lemma FirstIndexInPrefix<T>(s: seq<T>, n: nat, x: T)
    requires n <= |s| && x in s[..n]
    ensures FirstIndex(s, x) == FirstIndex(s[..n], x)
  {
    var f := FirstIndex(s, x);
    var g := FirstIndex(s[..n], x);
    assert s[..n][..g] == s[..g];
  }

  /** Names of the deduplicated prefix and the first index of an old name. */
  lemma DropDuplicateNamesStep(rows: seq<StartRow>)
    requires rows != []
    ensures var n := |rows| - 1;
      && Names(rows)[..n] == Names(rows[..n])
      && (forall x :: x in Names(rows[..n]) ==> FirstIndex(Names(rows), x) == FirstIndex(Names(rows[..n]), x))
  {
    var n := |rows| - 1;
    assert Names(rows)[..n] == Names(rows[..n]);
    forall x | x in Names(rows[..n])
      ensures FirstIndex(Names(rows), x) == FirstIndex(Names(rows[..n]), x)
    {
      FirstIndexInPrefix(Names(rows), n, x);
    }
  }

  /** Every deduplicated row is the first row of the table with its name. */
  lemma {:induction false} DropDuplicateNamesFirst(rows: seq<StartRow>)
    ensures forall k :: 0 <= k < |DropDuplicateNames(rows)| ==>
      FirstIndex(Names(rows), DropDuplicateNames(rows)[k].name) < |rows| &&
      DropDuplicateNames(rows)[k] == rows[FirstIndex(Names(rows), DropDuplicateNames(rows)[k].name)]
    decreases |rows|
  {
    if rows != [] {
      var n := |rows| - 1;
      var r0 := DropDuplicateNames(rows[..n]);
      DropDuplicateNamesFirst(rows[..n]);
      DropDuplicateNamesStep(rows);
      forall k | 0 <= k < |r0|
        ensures FirstIndex(Names(rows), r0[k].name) == FirstIndex(Names(rows[..n]), r0[k].name)
      {
        assert FirstIndex(Names(rows[..n]), r0[k].name) < n;
      }
      if rows[n].name !in Names(rows[..n]) {
        assert Names(rows) == Names(rows[..n]) + [rows[n].name];
      }
    }
  }

  /** The deduplicated rows keep the order of the table. */
  lemma {:induction false} DropDuplicateNamesOrdered(rows: seq<StartRow>)
    ensures forall k1, k2 :: 0 <= k1 < k2 < |DropDuplicateNames(rows)| ==>
      FirstIndex(Names(rows), DropDuplicateNames(rows)[k1].name) <
      FirstIndex(Names(rows), DropDuplicateNames(rows)[k2].name)
    decreases |rows|
  {
    if rows != [] {
      var n := |rows| - 1;
      var r0 := DropDuplicateNames(rows[..n]);
      DropDuplicateNamesOrdered(rows[..n]);
      DropDuplicateNamesFirst(rows[..n]);
      DropDuplicateNamesStep(rows);
      forall k | 0 <= k < |r0|
        ensures FirstIndex(Names(rows), r0[k].name) == FirstIndex(Names(rows[..n]), r0[k].name) < n
      {
        assert FirstIndex(Names(rows[..n]), r0[k].name) < n;
      }
      if rows[n].name !in Names(rows[..n]) {
        assert Names(rows) == Names(rows[..n]) + [rows[n].name];
      }
    }
  }

  /** Every name of the table keeps a row. */
  lemma {:induction false} DropDuplicateNamesComplete(rows: seq<StartRow>)
    ensures forall j :: 0 <= j < |rows| ==> rows[j].name in Names(DropDuplicateNames(rows))
    decreases |rows|
  {
    if rows != [] {
      var n := |rows| - 1;
      var r0 := DropDuplicateNames(rows[..n]);
      var r := DropDuplicateNames(rows);
      DropDuplicateNamesComplete(rows[..n]);
      if rows[n].name in Names(rows[..n]) {
        var i :| 0 <= i < n && Names(rows[..n])[i] == rows[n].name;
        assert rows[n].name == rows[..n][i].name;
      } else {
        assert Names(r) == Names(r0) + [rows[n].name];
      }
      forall j | 0 <= j < n ensures rows[j].name in Names(r) {
        assert rows[j] == rows[..n][j];
      }
    }
  }

  /** The strand swap: on `-` rows txStart and txEnd change places. */
  function SwapMinusStrand(rows: seq<StartRow>): (r: seq<StartRow>)
    ensures |r| == |rows|
  {
    seq(|rows|, i requires 0 <= i < |rows| =>
      if rows[i].strand == "-" then rows[i].(txStart := rows[i].txEnd, txEnd := rows[i].txStart)
      else rows[i])
  }

  /** The column rename: name, strand, chrom, txStart, txEnd, name2 become
      id, sense, chr, start, end, name. */
  function RenameColumns(rows: seq<StartRow>): (genes: seq<GeneRecord>)
    ensures |genes| == |rows|
  {
    seq(|rows|, i requires 0 <= i < |rows| =>
      GeneRecord(rows[i].name, rows[i].strand, rows[i].chrom, rows[i].txStart, rows[i].txEnd, rows[i].name2))
  }

  /** `g` is the record the builder makes from the refseq row `row`. */
  predicate RecordOf(g: GeneRecord, row: RefseqRow) {
    && g.id == row.name && g.sense == row.strand && g.chr == row.chrom && g.name == row.name2
    && (if row.strand == "-" then g.start == row.txEnd && g.end == row.txStart
        else g.start == row.txStart && g.end == row.txEnd)
  }

  /** Builds the start table from the rows of a refseq file, updating one copied
      table in three whole-table steps. */
  method MakeStartDict(refseqTable: seq<RefseqRow>) returns (startDict: seq<GeneRecord>)
    ensures |startDict| <= |refseqTable|
    // every record comes from the first refseq row carrying its id
    ensures forall k :: 0 <= k < |startDict| ==>
      var j := FirstIndex(Names(SelectColumns(refseqTable)), startDict[k].id);
      j < |refseqTable| && RecordOf(startDict[k], refseqTable[j])
    // records keep the order of those first rows, so no id occurs twice
    ensures forall k1, k2 :: 0 <= k1 < k2 < |startDict| ==>
      FirstIndex(Names(SelectColumns(refseqTable)), startDict[k1].id) < FirstIndex(Names(SelectColumns(refseqTable)), startDict[k2].id)
    // every transcript of the input has a record
    ensures forall j :: 0 <= j < |refseqTable| ==> refseqTable[j].name in Ids(startDict)
    ensures forall k1, k2 :: 0 <= k1 < k2 < |startDict| ==> startDict[k1].id != startDict[k2].id
  {
    var rows := SelectColumns(refseqTable);
    ghost var selected := rows;
    rows := DropDuplicateNames(rows);
    DropDuplicateNamesFirst(selected);
    DropDuplicateNamesOrdered(selected);
    DropDuplicateNamesComplete(selected);
    ghost var deduped := rows;
    rows := SwapMinusStrand(rows);
    startDict := RenameColumns(rows);
    assert Ids(startDict) == Names(deduped);
    forall k | 0 <= k < |startDict|
      ensures var j := FirstIndex(Names(SelectColumns(refseqTable)), startDict[k].id);
        j < |refseqTable| && RecordOf(startDict[k], refseqTable[j])
    {
      var j := FirstIndex(Names(selected), deduped[k].name);
      assert deduped[k] == selected[j];
      assert startDict[k].id == deduped[k].name;
    }
  }
}
