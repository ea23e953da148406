/**
 * The GTF gene-name extractor (bin/parse_gtf.py): it writes a header, then
 * one `gene_id<TAB>gene_name` row per `gene` record of the annotation file,
 * in file order, and stops with an uncaught error at the first line it
 * cannot index.
 */
module GtfGeneNames {
  import opened Wrappers
  import opened PyStr

  const HeaderLine := "Ensembl_ID\tGene_Name"
  const Header := HeaderLine + "\n"
  const GeneIdKey := "gene_id \""
  const GeneNameKey := "gene_name \""
  const MissingName := "NA"

  // ---------------------------------------------------------------------
  // The two fixed searches  re.search(r'<key>([^"]+)"', attributes)
  // ---------------------------------------------------------------------

  /** A match of `<key>([^"]+)"` starting at index `i` of `s`, whose group 1 is `v`. */
  predicate MatchesAt(key: string, s: string, i: nat, v: string) {
    var p := i + |key|;
    && p + |v| < |s|
    && s[i..p] == key
    && v != []
    && '"' !in v
    && s[p..p + |v|] == v
    && s[p + |v|] == '"'
  }

  /** The pattern matches nowhere in `s`. */
  ghost predicate NoMatch(key: string, s: string) {
    forall i: nat, v :: !MatchesAt(key, s, i, v)
  }

  /** A match at `i` with group `v`, and no match starts before `i`. */
  ghost predicate Leftmost(key: string, s: string, i: nat, v: string) {
    MatchesAt(key, s, i, v) && forall j: nat, w :: j < i ==> !MatchesAt(key, s, j, w)
  }

  /** What `re.search` returns: where the match starts and its group 1. */
  datatype Match = Match(start: nat, group: string)

  /** The index of the first `"` in `s` at or after `p`. */
  function NextQuote(s: string, p: nat): (r: Option<nat>)
    requires p <= |s|
    ensures r.Some? ==> p <= r.value < |s| && s[r.value] == '"' && '"' !in s[p..r.value]
    ensures r.None? ==> '"' !in s[p..]
    decreases |s| - p
  {
    if p == |s| then None
    else if s[p] == '"' then Some(p)
    else
      var r := NextQuote(s, p + 1);
      assert r.Some? ==> s[p..r.value] == [s[p]] + s[p + 1..r.value];
      assert s[p..] == [s[p]] + s[p + 1..];
      r
  }

  /** Group 1 of the pattern when the match is anchored at `i`. */
  function GroupAt(key: string, s: string, i: nat): (r: Option<string>)
    ensures r.Some? ==> MatchesAt(key, s, i, r.value)
    ensures r.None? ==> forall v :: !MatchesAt(key, s, i, v)
  {
    var p := i + |key|;
    if p <= |s| && s[i..p] == key then
      match NextQuote(s, p)
      case Some(q) =>
        GroupShape(key, s, i);
        if q > p then Some(s[p..q]) else None
      case None =>
        GroupShape(key, s, i);
        None
    else None
  }

  /** Group 1 of a match at `i` does not start with a quote, and a quote follows it. */
  lemma GroupShape(key: string, s: string, i: nat)
    ensures forall v :: MatchesAt(key, s, i, v) ==>
      i + |key| < |s| && s[i + |key|] != '"' && '"' in s[i + |key|..]
  {
    forall v | MatchesAt(key, s, i, v)
      ensures i + |key| < |s| && s[i + |key|] != '"' && '"' in s[i + |key|..]
    {
      var p := i + |key|;
      assert v[0] == s[p];
      assert s[p..][|v|] == '"';
    }
  }

  function SearchFrom(key: string, s: string, from: nat): (r: Option<Match>)
    requires from <= |s|
    ensures r.Some? ==> from <= r.value.start && MatchesAt(key, s, r.value.start, r.value.group)
    ensures r.Some? ==> forall j: nat, w :: from <= j < r.value.start ==> !MatchesAt(key, s, j, w)
    ensures r.None? ==> forall j: nat, w :: from <= j ==> !MatchesAt(key, s, j, w)
    decreases |s| - from
  {
    match GroupAt(key, s, from)
    case Some(v) => Some(Match(from, v))
    case None => if from == |s| then None else SearchFrom(key, s, from + 1)
  }

  /** `re.search(r'<key>([^"]+)"', s)`: the leftmost match, or none. */
  function Search(key: string, s: string): (r: Option<Match>)
    ensures r.None? <==> NoMatch(key, s)
    ensures r.Some? ==> Leftmost(key, s, r.value.start, r.value.group)
  {
    SearchFrom(key, s, 0)
  }

  /** Group 1 is determined by where the match starts: the text up to the next quote. */
  lemma MatchGroupUnique(key: string, s: string, i: nat, v: string, w: string)
    requires MatchesAt(key, s, i, v) && MatchesAt(key, s, i, w)
    ensures v == w
  {
  }

  /** Any two leftmost matches are the same match. */
  lemma LeftmostUnique(key: string, s: string, i: nat, v: string, j: nat, w: string)
    requires Leftmost(key, s, i, v) && Leftmost(key, s, j, w)
    ensures i == j && v == w
  {
    MatchGroupUnique(key, s, i, v, w);
  }

  /** No match starts where the text differs from the key. */
  lemma KeyMismatch(key: string, s: string, i: nat, k: nat)
    requires k < |key| && i + k < |s| && s[i + k] != key[k]
    ensures forall v :: !MatchesAt(key, s, i, v)
  {
    if i + |key| <= |s| {
      assert s[i..i + |key|][k] == s[i + k];
    }
  }

  /** A match with no match before it is what `re.search` returns. */
  lemma SearchFinds(key: string, s: string, i: nat, v: string)
    requires MatchesAt(key, s, i, v)
    requires forall j: nat, w :: j < i ==> !MatchesAt(key, s, j, w)
    ensures Search(key, s) == Some(Match(i, v))
  {
    var r := Search(key, s);
    LeftmostUnique(key, s, i, v, r.value.start, r.value.group);
  }

  // ---------------------------------------------------------------------
  // One input line (the loop body, parse_gtf.py:26-42)
  // ---------------------------------------------------------------------

  /** One output row. */
  datatype Row = Row(geneId: string, geneName: string)

  /** What the loop body does with a line: nothing, write a row, or raise IndexError. */
  datatype LineEffect = Skip | Emit(row: Row) | Raise

  predicate IsComment(line: string) {
    StartsWith(line, "#")
  }

  /** `line.strip().split("\t")`. */
  function Fields(line: string): seq<string> {
    Split(Strip(line), '\t')
  }

  /** The value written for the gene name: the leftmost `gene_name` group, or `NA`. */
  ghost predicate IsGeneName(attributes: string, name: string) {
    if NoMatch(GeneNameKey, attributes) then name == MissingName
    else exists i: nat :: Leftmost(GeneNameKey, attributes, i, name)
  }

  function ProcessLine(line: string): (e: LineEffect)
    ensures IsComment(line) ==> e == Skip
    ensures e == Raise <==>
      !IsComment(line) && (|Fields(line)| < 3 || (Fields(line)[2] == "gene" && |Fields(line)| < 9))
  {
    if IsComment(line) then Skip
    else
      var fields := Fields(line);
      if |fields| < 3 then Raise
      else if fields[2] != "gene" then Skip
      else if |fields| < 9 then Raise
      else
        var attributes := fields[8];
        match Search(GeneIdKey, attributes)
        case None => Skip
        case Some(idMatch) =>
          var name :=
            match Search(GeneNameKey, attributes)
            case Some(nameMatch) => nameMatch.group
            case None => MissingName;
          Emit(Row(idMatch.group, name))
  }

  lemma ProcessLineSpec(line: string)
    ensures IsComment(line) ==> ProcessLine(line) == Skip
    ensures ProcessLine(line) == Raise <==>
      !IsComment(line) && (|Fields(line)| < 3 || (Fields(line)[2] == "gene" && |Fields(line)| < 9))
    ensures ProcessLine(line).Emit? <==>
      !IsComment(line) && |Fields(line)| >= 9 && Fields(line)[2] == "gene" && !NoMatch(GeneIdKey, Fields(line)[8])
    ensures ProcessLine(line).Emit? ==>
      && (exists i: nat :: Leftmost(GeneIdKey, Fields(line)[8], i, ProcessLine(line).row.geneId))
      && IsGeneName(Fields(line)[8], ProcessLine(line).row.geneName)
  {
  }

  /** A non-comment line whose third field is not `gene` writes nothing, and raises only when it has fewer than three fields. */
  lemma NonGeneLineWritesNothing(line: string)
    requires !IsComment(line) && |Fields(line)| >= 3 && Fields(line)[2] != "gene"
    ensures ProcessLine(line) == Skip
  {
  }

  // ---------------------------------------------------------------------
  // The whole run (parse_gtf.py:22-42)
  // ---------------------------------------------------------------------

  /** How the run ends: normally, or with the error raised at `failedLine`; both keep the rows written. */
  datatype Run = Completed(rows: seq<Row>) | Aborted(rows: seq<Row>, failedLine: nat)

  /** The effect of each input line, in order. */
  function Effects(lines: seq<string>): seq<LineEffect> {
    seq(|lines|, k requires 0 <= k < |lines| => ProcessLine(lines[k]))
  }

  /** The loop over the line effects: rows accumulate in order, and the first `Raise` ends the run. */
  function RunOf(es: seq<LineEffect>): (r: Run)
    ensures r.Aborted? ==> r.failedLine < |es| && es[r.failedLine] == Raise
    decreases |es|
  {
    if es == [] then Completed([])
    else
      var n := |es| - 1;
      var prev := RunOf(es[..n]);
      if prev.Aborted? then prev
      else
        match es[n]
        case Skip => prev
        case Emit(row) => Completed(prev.rows + [row])
        case Raise => Aborted(prev.rows, n)
  }

  /** The whole run of the script over the lines of the input file. */
  function Extract(lines: seq<string>): (r: Run)
    ensures r.Aborted? <==> exists k :: 0 <= k < |lines| && ProcessLine(lines[k]) == Raise
    ensures r.Aborted? ==>
      && r.failedLine < |lines|
      && ProcessLine(lines[r.failedLine]) == Raise
      && forall k :: 0 <= k < r.failedLine ==> ProcessLine(lines[k]) != Raise
    ensures var handled := if r.Aborted? then r.failedLine else |lines|;
      handled <= |lines| && r.rows == Emitted(Effects(lines[..handled]))
  {
    var es := Effects(lines);
    assert forall k :: 0 <= k < |lines| ==> es[k] == ProcessLine(lines[k]);
    assert Raise in es <==> exists k :: 0 <= k < |lines| && ProcessLine(lines[k]) == Raise;
    AbortsAtFirstRaise(es);
    RunRows(es);
    var r := RunOf(es);
    var handled := if r.Aborted? then r.failedLine else |lines|;
    assert es[..handled] == Effects(lines[..handled]);
    r
  }

  function RowLine(row: Row): string {
    row.geneId + "\t" + row.geneName
  }

  /** `f"{gene_id}\t{gene_name}\n"` for each row, in order. */
  function RowsText(rows: seq<Row>): string {
    if rows == [] then ""
    else RowsText(rows[..|rows| - 1]) + RowLine(rows[|rows| - 1]) + "\n"
  }

  /** What the output file holds once the run ends, normally or not: the header is always first. */
  function Output(r: Run): (text: string)
    ensures StartsWith(text, Header)
  {
    Header + RowsText(r.rows)
  }

  /** Writing one more row extends the output by that row's line. */
  lemma OutputStep(rows: seq<Row>, row: Row)
    ensures Output(Completed(rows + [row])) == Output(Completed(rows)) + (RowLine(row) + "\n")
  {
    assert (rows + [row])[..|rows|] == rows;
  }

  /** The output file, opened with mode 'w'. */
  class OutputFile {
    var text: string

    constructor ()
      ensures text == ""
    {
      text := "";
    }

    /** `outfile.write(s)`. */
    method Write(s: string)
      modifies this
      ensures text == old(text) + s
    {
      text := text + s;
    }
  }

  /**
   * The script's top level (parse_gtf.py:22-42): opens the output, writes the
   * header, then handles the lines in order. `raisedAt` is the line whose
   * indexing raised, if one did; the file keeps what was written before it.
   */
  method ParseGtf(infile: seq<string>) returns (outfile: OutputFile, raisedAt: Option<nat>)
    ensures fresh(outfile)
    ensures outfile.text == Output(Extract(infile))
    ensures raisedAt.None? <==> Extract(infile).Completed?
    ensures raisedAt.Some? ==> raisedAt.value == Extract(infile).failedLine
  {
    outfile := new OutputFile();
    outfile.Write(Header);
    raisedAt := None;
    ghost var es := Effects(infile);
    ghost var rows: seq<Row> := [];
    for i := 0 to |infile|
      invariant RunOf(es[..i]) == Completed(rows)
      invariant outfile.text == Output(Completed(rows))
    {
      var line := infile[i];
      RunStep(es, i);
      if StartsWith(line, "#") {
        assert es[i] == Skip;
        continue;
      }
      var fields := Split(Strip(line), '\t');
      if |fields| < 3 {
        assert es[i] == Raise;
        raisedAt := Some(i);
        AbortIsFinal(es, i + 1);
        return;
      }
      if fields[2] == "gene" {
        if |fields| < 9 {
          assert es[i] == Raise;
          raisedAt := Some(i);
          AbortIsFinal(es, i + 1);
          return;
        }
        var attributes := fields[8];
        var geneIdMatch := Search(GeneIdKey, attributes);
        var geneNameMatch := Search(GeneNameKey, attributes);
        if geneIdMatch.Some? {
          var geneId := geneIdMatch.value.group;
          var geneName := if geneNameMatch.Some? then geneNameMatch.value.group else MissingName;
          ghost var row := Row(geneId, geneName);
          assert es[i] == Emit(row);
          outfile.Write(geneId + "\t" + geneName + "\n");
          assert geneId + "\t" + geneName + "\n" == RowLine(row) + "\n";
          OutputStep(rows, row);
          rows := rows + [row];
        } else {
          assert es[i] == Skip;
        }
      } else {
        assert es[i] == Skip;
      }
    }
    assert es[..|infile|] == es;
  }

  // ---------------------------------------------------------------------
  // Properties of the run
  // ---------------------------------------------------------------------

  /** One more line: what the loop does with its effect. */
  lemma RunStep(es: seq<LineEffect>, i: nat)
    requires i < |es| && RunOf(es[..i]).Completed?
    ensures RunOf(es[..i + 1]) ==
      match es[i]
      case Skip => RunOf(es[..i])
      case Emit(row) => Completed(RunOf(es[..i]).rows + [row])
      case Raise => Aborted(RunOf(es[..i]).rows, i)
  {
    assert es[..i + 1][..i] == es[..i];
  }

  /** Once the run has raised, later lines change nothing. */
  lemma {:induction false} AbortIsFinal(es: seq<LineEffect>, k: nat)
    requires k <= |es| && RunOf(es[..k]).Aborted?
    ensures RunOf(es) == RunOf(es[..k])
    decreases |es|
  {
    if k < |es| {
      var n := |es| - 1;
      assert es[..n][..k] == es[..k];
      AbortIsFinal(es[..n], k);
    } else {
      assert es[..k] == es;
    }
  }

  /** The run aborts exactly when some line raises, and then at the first such line. */
  lemma {:induction false} AbortsAtFirstRaise(es: seq<LineEffect>)
    ensures RunOf(es).Aborted? <==> Raise in es
    ensures RunOf(es).Aborted? ==> forall k :: 0 <= k < RunOf(es).failedLine ==> es[k] != Raise
    decreases |es|
  {
    if es != [] {
      var n := |es| - 1;
      AbortsAtFirstRaise(es[..n]);
      assert es == es[..n] + [es[n]];
    }
  }

  /** The rows the lines would write if none raised: a reference definition, front to back. */
  function Emitted(es: seq<LineEffect>): seq<Row> {
    if es == [] then []
    else (if es[0].Emit? then [es[0].row] else []) + Emitted(es[1..])
  }

  /** Rows of consecutive stretches of lines follow one another. */
  lemma {:induction false} EmittedAppend(a: seq<LineEffect>, b: seq<LineEffect>)
    ensures Emitted(a + b) == Emitted(a) + Emitted(b)
    decreases |a|
  {
    if a == [] {
      assert a + b == b;
    } else {
      var head := if a[0].Emit? then [a[0].row] else [];
      assert (a + b)[0] == a[0] && (a + b)[1..] == a[1..] + b;
      assert Emitted(a + b) == head + Emitted(a[1..] + b);
      EmittedAppend(a[1..], b);
    }
  }

  /** The lines handled before the run ends: all of them, or those before the one that raised. */
  function Handled(es: seq<LineEffect>): nat {
    var r := RunOf(es);
    if r.Aborted? then r.failedLine else |es|
  }

  /**
   * The rows written are exactly those of the emitting lines handled before
   * the run ended, one per line, in input order and without deduplication.
   */
  lemma {:induction false} RunRows(es: seq<LineEffect>)
    ensures Handled(es) <= |es|
    ensures RunOf(es).rows == Emitted(es[..Handled(es)])
    decreases |es|
  {
    if es != [] {
      var n := |es| - 1;
      RunRows(es[..n]);
      var prev := RunOf(es[..n]);
      if prev.Aborted? {
        assert es[..n][..prev.failedLine] == es[..prev.failedLine];
      } else {
        assert es[..n][..n] == es[..n];
        if es[n] == Raise {
          assert RunOf(es) == Aborted(prev.rows, n);
        } else {
          assert es[..|es|] == es == es[..n] + [es[n]];
          EmittedAppend(es[..n], [es[n]]);
          assert Emitted([es[n]]) == if es[n].Emit? then [es[n].row] else [];
        }
      }
    }
  }

  /** Rows written so far are never taken back: the output only grows. */
  lemma {:induction false} RowsOnlyGrow(es: seq<LineEffect>, k: nat)
    requires k <= |es|
    ensures RunOf(es[..k]).rows <= RunOf(es).rows
    decreases |es| - k
  {
    if k < |es| {
      var n := |es| - 1;
      assert es[..n][..k] == es[..k];
      RowsOnlyGrow(es[..n], k);
    } else {
      assert es[..k] == es;
    }
  }

  /**
   * Inserting a line that does nothing leaves the rows and the outcome as
   * they were; only the index of a later failing line moves by one.
   */
  lemma {:induction false} SkipChangesNothing(a: seq<LineEffect>, b: seq<LineEffect>)
    ensures RunOf(a + [Skip] + b).rows == RunOf(a + b).rows
    ensures RunOf(a + [Skip] + b).Aborted? == RunOf(a + b).Aborted?
    ensures RunOf(a + b).Aborted? ==>
      RunOf(a + [Skip] + b).failedLine ==
        RunOf(a + b).failedLine + (if RunOf(a + b).failedLine < |a| then 0 else 1)
    decreases |b|
  {
    if b == [] {
      assert (a + [Skip] + b)[..|a|] == a;
      assert a + b == a;
    } else {
      var m := |b| - 1;
      SkipChangesNothing(a, b[..m]);
      assert (a + [Skip] + b)[..|a| + 1 + m] == a + [Skip] + b[..m];
      assert (a + b)[..|a| + m] == a + b[..m];
    }
  }

  /** A comment line never writes a row and never raises: the run is as if it were not there. */
  lemma CommentLineIgnored(a: seq<string>, c: string, b: seq<string>)
    requires IsComment(c)
    ensures Extract(a + [c] + b).rows == Extract(a + b).rows
    ensures Extract(a + [c] + b).Aborted? == Extract(a + b).Aborted?
  {
    var ea, eb := Effects(a), Effects(b);
    CommentSkipped(c);
    assert Effects([c]) == [Skip];
    EffectsAppend(a + [c], b);
    EffectsAppend(a, [c]);
    EffectsAppend(a, b);
    assert Effects(a + [c] + b) == ea + [Skip] + eb;
    SkipChangesNothing(ea, eb);
  }

  lemma CommentSkipped(line: string)
    requires IsComment(line)
    ensures ProcessLine(line) == Skip
  {
  }

  lemma EffectsAppend(a: seq<string>, b: seq<string>)
    ensures Effects(a + b) == Effects(a) + Effects(b)
  {
  }

  // ---------------------------------------------------------------------
  // Reading the output back
  // ---------------------------------------------------------------------

  /** Neither field of the row holds a tab or a newline. */
  predicate CleanRow(row: Row) {
    '\t' !in row.geneId && '\n' !in row.geneId && '\t' !in row.geneName && '\n' !in row.geneName
  }

  /** The data lines of the output, without their newlines. */
  function RowLines(rows: seq<Row>): seq<string> {
    seq(|rows|, j requires 0 <= j < |rows| => RowLine(rows[j]))
  }

  /** The output is the header line and the row lines, each ended by a newline. */
  lemma {:induction false} OutputAsJoin(rows: seq<Row>)
    ensures Header + RowsText(rows) == Join([HeaderLine] + RowLines(rows), '\n') + "\n"
    decreases |rows|
  {
    if rows != [] {
      var n := |rows| - 1;
      OutputAsJoin(rows[..n]);
      assert RowLines(rows) == RowLines(rows[..n]) + [RowLine(rows[n])];
      JoinAppend([HeaderLine] + RowLines(rows[..n]), [RowLine(rows[n])], '\n');
      assert [HeaderLine] + RowLines(rows[..n]) + [RowLine(rows[n])] == [HeaderLine] + RowLines(rows);
    }
  }

  /** Splitting a clean row's line at tabs gives back its two fields. */
  lemma RowLineReadsBack(row: Row)
    requires CleanRow(row)
    ensures Split(RowLine(row), '\t') == [row.geneId, row.geneName]
  {
    SplitAppend(row.geneId, row.geneName, '\t');
    SplitNoSep(row.geneId, '\t');
    SplitNoSep(row.geneName, '\t');
    assert RowLine(row) == row.geneId + ['\t'] + row.geneName;
  }

  /**
   * When no field holds a tab or a newline, splitting the output at newlines
   * gives the header line, one line per row and the empty tail after the last
   * newline.
   */
  lemma OutputReadsBack(r: Run)
    requires forall j :: 0 <= j < |r.rows| ==> CleanRow(r.rows[j])
    ensures Split(Output(r), '\n') == [HeaderLine] + RowLines(r.rows) + [""]
  {
    var parts := [HeaderLine] + RowLines(r.rows) + [""];
    OutputAsJoin(r.rows);
    JoinAppend([HeaderLine] + RowLines(r.rows), [""], '\n');
    assert Output(r) == Join(parts, '\n');
    forall k | 0 <= k < |parts| ensures '\n' !in parts[k] {
      if 0 < k <= |r.rows| {
        assert parts[k] == r.rows[k - 1].geneId + "\t" + r.rows[k - 1].geneName;
      }
    }
    SplitJoin(parts, '\n');
  }

  /** A line as Python's iteration over a text file yields it: a newline can only end it. */
  predicate IsFileLine(line: string) {
    forall k :: 0 <= k < |line| - 1 ==> line[k] != '\n'
  }

  /** Stripping a file line removes its newline. */
  lemma StripDropsNewline(line: string)
    requires IsFileLine(line)
    ensures '\n' !in Strip(line)
  {
  }

  /** The group of a match is text of the searched string. */
  lemma GroupWithin(key: string, s: string, i: nat, v: string, c: char)
    requires MatchesAt(key, s, i, v) && c in v
    ensures c in s
  {
    var m :| 0 <= m < |v| && v[m] == c;
    assert s[i + |key| + m] == v[m];
  }

  /** A row made from a file line holds no tab and no newline. */
  lemma LineRowClean(line: string)
    requires IsFileLine(line) && ProcessLine(line).Emit?
    ensures CleanRow(ProcessLine(line).row)
  {
    ProcessLineSpec(line);
    var fields := Fields(line);
    var row := ProcessLine(line).row;
    StripDropsNewline(line);
    if '\n' in fields[8] {
      JoinContains(fields, '\t', 8, '\n');
    }
    var i: nat :| Leftmost(GeneIdKey, fields[8], i, row.geneId);
    if '\t' in row.geneId { GroupWithin(GeneIdKey, fields[8], i, row.geneId, '\t'); }
    if '\n' in row.geneId { GroupWithin(GeneIdKey, fields[8], i, row.geneId, '\n'); }
    if !NoMatch(GeneNameKey, fields[8]) {
      var j: nat :| Leftmost(GeneNameKey, fields[8], j, row.geneName);
      if '\t' in row.geneName { GroupWithin(GeneNameKey, fields[8], j, row.geneName, '\t'); }
      if '\n' in row.geneName { GroupWithin(GeneNameKey, fields[8], j, row.geneName, '\n'); }
    }
  }

  /** If every emitting line makes a clean row, every row written is clean. */
  lemma {:induction false} RunRowsClean(es: seq<LineEffect>)
    requires forall k :: 0 <= k < |es| && es[k].Emit? ==> CleanRow(es[k].row)
    ensures forall j :: 0 <= j < |RunOf(es).rows| ==> CleanRow(RunOf(es).rows[j])
    decreases |es|
  {
    if es != [] {
      RunRowsClean(es[..|es| - 1]);
    }
  }

  /** Every row written from the lines of a text file holds no tab and no newline. */
  lemma ExtractRowsClean(lines: seq<string>)
    requires forall k :: 0 <= k < |lines| ==> IsFileLine(lines[k])
    ensures forall j :: 0 <= j < |Extract(lines).rows| ==> CleanRow(Extract(lines).rows[j])
  {
    var es := Effects(lines);
    forall k | 0 <= k < |es| && es[k].Emit? ensures CleanRow(es[k].row) {
      LineRowClean(lines[k]);
    }
    RunRowsClean(es);
  }

  /**
   * A record written as its fields joined by tabs, with no whitespace at
   * either end, splits back into those fields.
   */
  lemma FieldsOfRecord(fields: seq<string>)
    requires |fields| >= 1 && forall k :: 0 <= k < |fields| ==> '\t' !in fields[k]
    requires fields[0] != [] && !IsSpace(fields[0][0])
    requires var last := fields[|fields| - 1]; last != [] && !IsSpace(last[|last| - 1])
    ensures Fields(Join(fields, '\t')) == fields
  {
    JoinEnds(fields, '\t');
    StripUnpadded(Join(fields, '\t'));
    SplitJoin(fields, '\t');
  }

  /**
   * A well-formed `gene` record written as nine tab-joined fields gives the
   * row of its leftmost `gene_id` and `gene_name` groups, or `NA`.
   */
  lemma GeneRecordRow(fields: seq<string>)
    requires |fields| == 9 && forall k :: 0 <= k < 9 ==> '\t' !in fields[k]
    requires fields[0] != [] && fields[0][0] != '#' && !IsSpace(fields[0][0])
    requires fields[8] != [] && !IsSpace(fields[8][|fields[8]| - 1])
    requires fields[2] == "gene" && Search(GeneIdKey, fields[8]).Some?
    ensures ProcessLine(Join(fields, '\t')) == Emit(Row(
      Search(GeneIdKey, fields[8]).value.group,
      if Search(GeneNameKey, fields[8]).Some? then Search(GeneNameKey, fields[8]).value.group else MissingName))
  {
    FieldsOfRecord(fields);
    CommentIsFirstField(fields);
  }

  /** A joined record is a comment exactly when its first field is. */
  lemma CommentIsFirstField(fields: seq<string>)
    requires |fields| >= 1 && fields[0] != [] && fields[|fields| - 1] != []
    ensures IsComment(Join(fields, '\t')) <==> IsComment(fields[0])
  {
    JoinEnds(fields, '\t');
  }

  /** In `gene_id "ENSG001"; gene_name "TP53";` no `g` follows the first before index 19. */
  lemma BothAttributesChars(attributes: string)
    requires attributes == "gene_id \"ENSG001\"; gene_name \"TP53\";"
    ensures forall k :: 0 < k < 19 ==> attributes[k] != 'g'
    ensures attributes[5] == 'i'
  {
  }

  /** The `gene_name` key does not start before index 19 of that text. */
  lemma NoNameBefore(attributes: string)
    requires attributes == "gene_id \"ENSG001\"; gene_name \"TP53\";"
    ensures forall j: nat, w :: j < 19 ==> !MatchesAt(GeneNameKey, attributes, j, w)
  {
    BothAttributesChars(attributes);
    forall j: nat, w | j < 19 ensures !MatchesAt(GeneNameKey, attributes, j, w) {
      if j == 0 {
        KeyMismatch(GeneNameKey, attributes, j, 5);
      } else {
        KeyMismatch(GeneNameKey, attributes, j, 0);
      }
    }
  }

  /** `gene_id "ENSG001"` opens the text, so the `gene_id` search finds it. */
  lemma GeneIdFirstExample(attributes: string)
    requires attributes == "gene_id \"ENSG001\"; gene_name \"TP53\";"
    ensures Search(GeneIdKey, attributes) == Some(Match(0, "ENSG001"))
  {
    assert attributes[..9] == GeneIdKey;
    assert attributes[9..16] == attributes[9..][..7] == "ENSG001";
    SearchFinds(GeneIdKey, attributes, 0, "ENSG001");
  }

  /** The `gene_name` search skips the `gene_id` attribute and finds `TP53`. */
  lemma GeneNameSecondExample(attributes: string)
    requires attributes == "gene_id \"ENSG001\"; gene_name \"TP53\";"
    ensures Search(GeneNameKey, attributes) == Some(Match(19, "TP53"))
  {
    NoNameBefore(attributes);
    assert attributes[19..30] == attributes[19..][..11] == GeneNameKey;
    assert attributes[30..34] == attributes[30..][..4] == "TP53";
    SearchFinds(GeneNameKey, attributes, 19, "TP53");
  }

  /** No `gene_name` attribute: the name search finds nothing. */
  lemma IdOnlyAttributesExample(attributes: string)
    requires attributes == "gene_id \"G1\";"
    ensures Search(GeneIdKey, attributes) == Some(Match(0, "G1"))
    ensures Search(GeneNameKey, attributes) == None
  {
    assert attributes[..9] == GeneIdKey;
    assert attributes[9..11] == attributes[9..][..2] == "G1";
    SearchFinds(GeneIdKey, attributes, 0, "G1");
    forall j: nat, w ensures !MatchesAt(GeneNameKey, attributes, j, w) {
    }
  }

  /** The nine fields of a `gene` record on chromosome 1, the last holding the attributes. */
  function GeneRecord(attributes: string, start: string, end: string): seq<string> {
    ["chr1", ".", "gene", start, end, ".", "+", ".", attributes]
  }

  /** The record with `gene_id "ENSG001"; gene_name "TP53";` gives the row `ENSG001<TAB>TP53`. */
  lemma GeneLineExample(attributes: string)
    requires attributes == "gene_id \"ENSG001\"; gene_name \"TP53\";"
    ensures ProcessLine(Join(GeneRecord(attributes, "100", "200"), '\t')) == Emit(Row("ENSG001", "TP53"))
  {
    GeneIdFirstExample(attributes);
    GeneNameSecondExample(attributes);
    GeneRecordRow(GeneRecord(attributes, "100", "200"));
  }

  /** A `gene` record with `gene_id "G1"` and no `gene_name` gives the row `G1<TAB>NA`. */
  lemma MissingNameExample(attributes: string)
    requires attributes == "gene_id \"G1\";"
    ensures ProcessLine(Join(GeneRecord(attributes, "1", "2"), '\t')) == Emit(Row("G1", MissingName))
  {
    IdOnlyAttributesExample(attributes);
    GeneRecordRow(GeneRecord(attributes, "1", "2"));
  }
}
