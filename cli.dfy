/**
  main.go: the two decisions the command line makes before crawling. How
  many sites are crawled at once (`concurrencyNumber`), and which reporter
  prints the results (`NewReporter`, chosen by the `-f` flag).
*/
module Cli {
  import opened GoStrings
  import opened Reporting

  /**
    `concurrencyNumber`: the number of CPUs divided by the maximum depth
    (Go's truncating division), raised to 1 when that is smaller. A zero
    depth would make Go's division panic, so it is excluded.
  */
  function ConcurrencyNumber(numCPU: int, maxDepth: int): (count: int)
    requires maxDepth != 0
    ensures count >= 1
  {
    var count := Quo(numCPU, maxDepth);
    if count < 1 then 1 else count
  }

  /**
    When the depth is positive and at most the number of CPUs, each crawl
    gets its whole share: the plain quotient of the two counts.
  */
  lemma ConcurrencyIsShare(numCPU: int, maxDepth: int)
    requires 1 <= maxDepth <= numCPU
    ensures ConcurrencyNumber(numCPU, maxDepth) == numCPU / maxDepth
  {
  }

  /** A depth greater than the number of CPUs leaves a single crawler. */
  lemma DeepCrawlIsSequential(numCPU: int, maxDepth: int)
    requires 0 <= numCPU < maxDepth
    ensures ConcurrencyNumber(numCPU, maxDepth) == 1
  {
    assert Quo(numCPU, maxDepth) == 0;
  }

  /**
    A negative depth makes the truncated quotient zero or negative, so the
    clamp leaves a single crawler.
  */
  lemma NegativeDepthIsSequential(numCPU: int, maxDepth: int)
    requires maxDepth < 0 && numCPU >= 0
    ensures ConcurrencyNumber(numCPU, maxDepth) == 1
  {
    assert Quo(numCPU, maxDepth) <= 0;
  }

  /**
    With at least one CPU and a positive depth, no more crawlers run at once
    than there are CPUs, and at least as many as the depth's share of them.
  */
  lemma ConcurrencyBounds(numCPU: int, maxDepth: int)
    requires numCPU >= 1 && maxDepth >= 1
    ensures ConcurrencyNumber(numCPU, maxDepth) <= numCPU
    ensures ConcurrencyNumber(numCPU, maxDepth) * maxDepth <= numCPU || ConcurrencyNumber(numCPU, maxDepth) == 1
  {
    var q := Quo(numCPU, maxDepth);
    assert 0 <= q * maxDepth <= numCPU;
    if q >= 1 {
      assert q <= q * maxDepth;
    }
  }

  /** The kind of reporter the `-f` flag selects. */
  datatype ReporterKind = TableKind | TsvKind | CsvKind

  /** The switch of `NewReporter`: "csv" and "tsv" are recognised; "table" and anything else give a table. */
  function ReporterFor(format: string): (kind: ReporterKind)
    ensures kind == CsvKind <==> format == "csv"
    ensures kind == TsvKind <==> format == "tsv"
    ensures kind == TableKind <==> format != "csv" && format != "tsv"
  {
    if format == "table" then TableKind
    else if format == "csv" then CsvKind
    else if format == "tsv" then TsvKind
    else TableKind
  }

  /** Whether a reporter is of the kind the format selects. */
  ghost predicate IsKind(r: Reporter, kind: ReporterKind)
    reads if r.TableOutput? then {r.table} else {}
  {
    match kind
    case TableKind => r.TableOutput? && r.table.style == Boxed
    case TsvKind => r.TableOutput? && r.table.style == TabPadded
    case CsvKind => r.CsvOutput?
  }

  /**
    `NewReporter`: a fresh reporter of the kind the format selects, holding
    only the header.
  */
  method NewReporter(format: string) returns (r: Reporter)
    ensures r.TableOutput? ==> fresh(r.table) && r.table.Valid() && r.table.rows == []
    ensures r.CsvOutput? ==> fresh(r.csv) && r.csv.Valid() && r.csv.records == [FieldNames]
    ensures IsKind(r, ReporterFor(format))
  {
    if format == "table" {
      var tr := new TableReporter();
      r := TableOutput(tr);
    } else if format == "csv" {
      var cr := new CsvReporter();
      r := CsvOutput(cr);
    } else if format == "tsv" {
      var tr := NewTSVReporter();
      r := TableOutput(tr);
    } else {
      var tr := new TableReporter();
      r := TableOutput(tr);
    }
  }
}
