# RNA-seq helper scripts, modelled in Dafny

Two helper scripts of an RNA-seq pipeline are modelled here.

- `bin/parse_gtf.py` reads a GTF annotation file and writes a two-column table.
  - The first line is the header `Ensembl_ID<TAB>Gene_Name`.
  - Then comes one row `gene_id<TAB>gene_name` for each `gene` record, in file order.
  - A `gene` record without a `gene_name` attribute gets the name `NA`.
  - A record without a `gene_id` attribute is skipped.
  - A line starting with `#` is skipped.
  - A non-comment line with fewer than three tab-separated fields raises an uncaught `IndexError`. So does a `gene` line with fewer than nine.
  - When the error is raised, the rows already written stay in the output file.
- `bin/concatenate_counts.py` joins per-sample VERSE count tables into one count matrix.
  - Each table becomes one column.
  - The column is named after its sample: the file's basename up to its first `.`.
  - Columns appear in argument order.
  - The rows are the union of all feature IDs (an outer join).
  - A cell is empty exactly when that sample's table lacks that feature.
  - An empty list of tables is an error.

The project has four files:

- `wrappers.dfy`: the `Option` type.
- `pystr.dfy`: module `PyStr`, the Python string operations the scripts rely on. These are `str.startswith`, `str.strip` (with Python's full `str.isspace` set), `str.split` on a single character, and `str.join`. The module proves `split`/`join` round trips.
- `parse_gtf.dfy`: module `GtfGeneNames`, with three layers.
  - Per line: `ProcessLine` gives the effect of one line, which is `Skip`, `Emit(row)` or `Raise`.
  - Whole run: `Extract`/`RunOf` give the specification of a run, which is `Completed(rows)` or `Aborted(rows, failedLine)`.
  - Script: `ParseGtf` is an imperative method. It writes through an `OutputFile` object, and it is proved to leave exactly `Output(Extract(lines))` in the file.
  - The regular-expression searches are modelled as a leftmost search for the fixed pattern `key"([^"]+)"`.
- `concatenate_counts.dfy`: module `CountMatrix`.
  - `SampleName` models the column naming.
  - `IsOuterJoin` characterises `pd.concat(..., axis=1)` on one-column frames.
  - `Concat` builds that join.
  - `ConcatenateCounts` is the script's loop over the input files.

## Model

| member | source | states |
|---|---|---|
| PyStr.LeadingSpace | bin/parse_gtf.py:29 | the length of the whitespace run that starts the line: all of it is whitespace and the next character is not |
| PyStr.StripEnd | bin/parse_gtf.py:29 | the right-hand half of `strip()`: a prefix of the input, followed only by whitespace, not ending in whitespace |
| PyStr.Strip | bin/parse_gtf.py:29 | `line.strip()` is the slice after the leading whitespace, followed only by whitespace, and neither starts nor ends with whitespace |
| PyStr.Split | bin/parse_gtf.py:29 | `split("\t")` yields at least one piece, no piece contains the separator, and joining the pieces with it gives back the line |
| PyStr.SplitNoSep | bin/parse_gtf.py:29 | a string without the separator splits into itself alone |
| PyStr.SplitAppend | bin/parse_gtf.py:29 | splitting `a + sep + b` is splitting `a` followed by splitting `b` |
| PyStr.JoinAppend | bin/parse_gtf.py:29 | joining two non-empty lists of pieces puts one separator between the two joins |
| PyStr.SplitJoin | bin/parse_gtf.py:29 | pieces without the separator come back unchanged from split after join |
| PyStr.SplitFirst | bin/concatenate_counts.py:12 | the first piece of `split('.')` is a prefix, followed by the separator when shorter than the string |
| PyStr.SplitLast | bin/concatenate_counts.py:12 | the last piece of `split('/')` is a suffix, preceded by the separator when shorter than the string |
| PyStr.StripUnpadded | bin/parse_gtf.py:29 | a line that neither starts nor ends with whitespace is unchanged by `strip()` |
| PyStr.JoinEnds | bin/parse_gtf.py:29 | a join starts with its first piece's first character and ends with its last piece's last |
| PyStr.JoinContains | bin/parse_gtf.py:29 | a character of any piece occurs in the joined text |
| GtfGeneNames.NextQuote | bin/parse_gtf.py:34-35 | the first `"` at or after a position, or the absence of any `"` there |
| GtfGeneNames.GroupShape | bin/parse_gtf.py:34-35 | a match at a position needs a non-empty quote-free group followed by a closing quote |
| GtfGeneNames.GroupAt | bin/parse_gtf.py:34-35 | the pattern `key"([^"]+)"` matches at a position exactly when this returns its group, and it matches nowhere else |
| GtfGeneNames.SearchFrom | bin/parse_gtf.py:34-35 | the first match at or after a position, with no match before it, or no match at all from there |
| GtfGeneNames.Search | bin/parse_gtf.py:34-35 | `re.search` finds nothing exactly when the pattern matches nowhere, and otherwise returns the leftmost match and its group |
| GtfGeneNames.MatchGroupUnique | bin/parse_gtf.py:34-38 | a match at a given position has a single group value |
| GtfGeneNames.LeftmostUnique | bin/parse_gtf.py:34-39 | the leftmost match and its group are unique, so `group(1)` is well defined |
| GtfGeneNames.KeyMismatch | bin/parse_gtf.py:34-35 | no match starts where the text differs from the key |
| GtfGeneNames.SearchFinds | bin/parse_gtf.py:34-38 | a match with no earlier match is what `re.search` returns, with that group |
| GtfGeneNames.ProcessLine | bin/parse_gtf.py:26-42 | a `#` line is skipped; a line raises exactly when it has fewer than 3 fields, or is a `gene` line with fewer than 9 (the rows it emits are stated by `ProcessLineSpec`) |
| GtfGeneNames.ProcessLineSpec | bin/parse_gtf.py:26-42 | comment lines are skipped; a line raises exactly when it has fewer than 3 fields, or is a `gene` line with fewer than 9; it emits exactly when it is a `gene` line with a `gene_id` match; the row holds the leftmost `gene_id` group and the leftmost `gene_name` group or `NA` |
| GtfGeneNames.NonGeneLineWritesNothing | bin/parse_gtf.py:29-30 | a line whose third field is not `gene` writes nothing and raises nothing |
| GtfGeneNames.CommentSkipped | bin/parse_gtf.py:26-27 | a `#` line is skipped before it is split |
| GtfGeneNames.EffectsAppend | bin/parse_gtf.py:25 | the effects of two concatenated inputs are the two effect lists concatenated |
| GtfGeneNames.RunOf | bin/parse_gtf.py:22-42 | a run that aborts does so at a line whose effect is to raise |
| GtfGeneNames.RunStep | bin/parse_gtf.py:25-42 | one more line after a completed prefix adds its row, changes nothing, or aborts at that line with the rows so far |
| GtfGeneNames.AbortIsFinal | bin/parse_gtf.py:25-31 | once a prefix has aborted, later lines change nothing |
| GtfGeneNames.AbortsAtFirstRaise | bin/parse_gtf.py:25-31 | the run aborts exactly when some line raises, and then at the first such line |
| GtfGeneNames.EmittedAppend | bin/parse_gtf.py:25-42 | the rows emitted by two concatenated effect lists are the two row lists concatenated |
| GtfGeneNames.RunRows | bin/parse_gtf.py:25-42 | the rows written are exactly the rows emitted, in order and with repetitions, by the lines before the first raise |
| GtfGeneNames.RowsOnlyGrow | bin/parse_gtf.py:22-42 | rows are only appended: the rows after a prefix are a prefix of the final rows |
| GtfGeneNames.SkipChangesNothing | bin/parse_gtf.py:26-30 | inserting a skipped line leaves the rows and the outcome unchanged, and moves the failing line by one |
| GtfGeneNames.CommentLineIgnored | bin/parse_gtf.py:26-27 | inserting a comment line anywhere leaves the rows written and whether the run aborts unchanged |
| GtfGeneNames.Extract | bin/parse_gtf.py:22-42 | the run aborts exactly when some line raises, and then at the first such line; its rows are those emitted, in order, by the lines before the abort or by all lines |
| GtfGeneNames.Output | bin/parse_gtf.py:22-42 | the output file always starts with the header line |
| GtfGeneNames.OutputStep | bin/parse_gtf.py:42 | writing one more row appends `id<TAB>name<NL>` to the file |
| GtfGeneNames.OutputFile.constructor | bin/parse_gtf.py:22 | opening the output with mode `w` gives an empty file |
| GtfGeneNames.OutputFile.Write | bin/parse_gtf.py:23 | `write` appends its argument and changes nothing else |
| GtfGeneNames.ParseGtf | bin/parse_gtf.py:22-42 | the file holds the header and the rows of `Extract(lines)`; the script raises exactly when that run aborts, and at its failing line |
| GtfGeneNames.OutputAsJoin | bin/parse_gtf.py:23-42 | the output is the header line and the row lines joined by newlines, with a final newline |
| GtfGeneNames.RowLineReadsBack | bin/parse_gtf.py:42 | a row without tab or newline splits back at the tab into its ID and name |
| GtfGeneNames.OutputReadsBack | bin/parse_gtf.py:23-42 | splitting the output at newlines gives the header, one line per row, and an empty tail |
| GtfGeneNames.StripDropsNewline | bin/parse_gtf.py:29 | a file line, which can only end in a newline, has none left after `strip()` |
| GtfGeneNames.GroupWithin | bin/parse_gtf.py:34-38 | a group's characters come from the searched text |
| GtfGeneNames.LineRowClean | bin/parse_gtf.py:29-42 | a row taken from a file line contains no tab and no newline |
| GtfGeneNames.RunRowsClean | bin/parse_gtf.py:25-42 | if every emitted row is clean, every written row is |
| GtfGeneNames.ExtractRowsClean | bin/parse_gtf.py:22-42 | every row written from a file's lines is clean, so the output reads back as a two-column table |
| GtfGeneNames.FieldsOfRecord | bin/parse_gtf.py:29 | tab-joined fields with no whitespace at either end come back from `strip().split("\t")` |
| GtfGeneNames.CommentIsFirstField | bin/parse_gtf.py:26 | a tab-joined record is a comment exactly when its first field starts with `#` |
| GtfGeneNames.GeneRecordRow | bin/parse_gtf.py:26-42 | a nine-field `gene` record with a `gene_id` gives the row of its leftmost `gene_id` group and its `gene_name` group or `NA` |
| GtfGeneNames.NoNameBefore | bin/parse_gtf.py:35 | in `gene_id "ENSG001"; gene_name "TP53";` the `gene_name` pattern matches nowhere before index 19 |
| GtfGeneNames.GeneIdFirstExample | bin/parse_gtf.py:34 | the `gene_id` search in `gene_id "ENSG001"; gene_name "TP53";` finds `ENSG001` at index 0 |
| GtfGeneNames.GeneNameSecondExample | bin/parse_gtf.py:35 | the `gene_name` search in the same text finds `TP53` at index 19 |
| GtfGeneNames.IdOnlyAttributesExample | bin/parse_gtf.py:34-39 | in `gene_id "G1";` the `gene_id` search finds `G1` and the `gene_name` search finds nothing |
| GtfGeneNames.GeneLineExample | bin/parse_gtf.py:26-42 | the record `chr1 . gene 100 200 . + . gene_id "ENSG001"; gene_name "TP53";` gives the row `ENSG001<TAB>TP53` |
| GtfGeneNames.MissingNameExample | bin/parse_gtf.py:26-42 | a `gene` record with `gene_id "G1";` and no `gene_name` gives the row `G1<TAB>NA` |
| CountMatrix.Basename | bin/concatenate_counts.py:12 | `os.path.basename` is the suffix after the last `/` and contains no `/` |
| CountMatrix.SampleName | bin/concatenate_counts.py:12 | the sample name is the prefix of the basename before its first `.`, and contains neither `.` nor `/` |
| CountMatrix.SampleNameWithoutDot | bin/concatenate_counts.py:12 | a basename without `.` is the sample name unchanged |
| CountMatrix.SampleNameLeadingDot | bin/concatenate_counts.py:12 | a basename starting with `.` gives the empty sample name |
| CountMatrix.BasenameWithoutSlash | bin/concatenate_counts.py:12 | a path without `/` is its own basename |
| CountMatrix.SampleNameAtFirstDot | bin/concatenate_counts.py:12 | the sample name ends exactly at the basename's first `.` |
| CountMatrix.SampleNameExample | bin/concatenate_counts.py:12 | `sampleA.counts.tsv` names the column `sampleA` |
| CountMatrix.JoinColumnKeys | bin/concatenate_counts.py:18 | adding a column adds the new frame's feature IDs to the rows |
| CountMatrix.JoinColumnCells | bin/concatenate_counts.py:18 | adding a column keeps the old cells and fills the new one from the new frame |
| CountMatrix.JoinColumnJoins | bin/concatenate_counts.py:18 | joining one more frame onto an outer join of the earlier frames gives the outer join of all of them |
| CountMatrix.Concat | bin/concatenate_counts.py:18 | `pd.concat(dfs, axis=1)` is an outer join: one column per frame in order, named after it; a row for each feature ID of any frame; each cell is that frame's value, or missing |
| CountMatrix.ColumnReadsBack | bin/concatenate_counts.py:13-18 | the present cells of column `i` are exactly the counts of table `i` |
| CountMatrix.ConcatenateCounts | bin/concatenate_counts.py:6-18 | no input files is an error; otherwise the result is the outer join of the tables, each renamed to its file's sample name, in argument order |
| CountMatrix.MatrixExample | bin/concatenate_counts.py:11-18 | samples `s1` (geneA 5) and `s2` (geneA 3, geneB 7) give rows geneA `[5, 3]` and geneB `[missing, 7]` |

## Left out

- Command-line parsing (`argparse`) is not modelled. The file names and the lines are parameters.
- Opening, reading and writing real files is not modelled.
  - The GTF input is the list of lines as Python's text-file iteration yields them.
  - Platform newline translation is not modelled.
  - The output file is an `OutputFile` object whose text only grows.
- The completion message at `bin/parse_gtf.py:44` is not modelled. Neither is the unused `import csv` after it.
- `GtfGeneNames.ParseGtf`: the uncaught `IndexError` is not modelled as an exception. It is the `raisedAt` result, or `Aborted` in the run. Either way the rows already written are kept.
- `GtfGeneNames.Search`: only the two fixed patterns `gene_id "([^"]+)"` and `gene_name "([^"]+)"` are modelled, not a general regular-expression engine.
- GTF records have nine fields, but the code indexes field 2 on every non-comment line and field 8 only on `gene` lines, so other lines need only three fields; the model follows the code.
- `pd.read_csv(count_file, sep='\t', index_col=0)` is not modelled.
  - Each count file is given as the frame pandas would produce: feature ID to integer count.
  - With pandas' default `header=0`, the first line of each file is read as a header and does not become a row.
  - `CountMatrix.ConcatenateCounts`: a file with more than one data column, where `df.columns = [sample_name]` raises a length mismatch, is not modelled. Frames have exactly one column by construction.
- `CountMatrix.Basename`: only the POSIX form of `os.path.basename` is modelled, splitting at `/`. On Windows it also splits at `\` and after a drive letter; neither is modelled.
- `CountMatrix.Concat`: the row order of the matrix is not modelled, because rows are a map keyed by feature ID. Errors pandas raises for duplicate feature IDs within one file are not modelled either.
- Two count files with the same sample name give two columns with the same name. The model keeps both, as pandas does, but does not model the CSV rendering.
- `final_df.to_csv(output_file)` is not modelled. This covers the CSV text, and pandas' conversion of columns with missing cells to floating point.
- `CountMatrix.ConcatenateCounts`: the frames are modelled as values. The source renames each data frame's column in place before collecting it; the model produces a renamed copy.
