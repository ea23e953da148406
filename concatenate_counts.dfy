/**
 * The count-matrix builder (bin/concatenate_counts.py): each count file
 * becomes a one-column table named after its sample, and the tables are
 * joined side by side on feature ID, keeping every feature of every file.
 */
module CountMatrix {
  import opened Wrappers
  import opened PyStr

  type FeatureId = string

  /** A count as pandas reads it; its textual form is not modelled. */
  type Count = int

  /** A one-column data frame indexed by feature ID: its column name and its values. */
  datatype Frame = Frame(column: string, values: map<FeatureId, Count>)

  /**
   * One positional argument: its path, and the frame `pd.read_csv(path,
   * sep='\t', index_col=0)` yields for it (its column is named by the file's
   * first line).
   */
  datatype CountFile = CountFile(path: string, frame: Frame)

  /** The concatenated matrix: column names in order, and for each feature ID one cell per column. */
  datatype Matrix = Matrix(columns: seq<string>, rows: map<FeatureId, seq<Option<Count>>>)

  /** `os.path.basename(path)` on POSIX: the text after the last `/`. */
  function Basename(path: string): (b: string)
    ensures '/' !in b
    ensures |b| <= |path| && b == path[|path| - |b|..]
    ensures |b| < |path| ==> path[|path| - |b| - 1] == '/'
  {
    var parts := Split(path, '/');
    SplitLast(path, '/');
    parts[|parts| - 1]
  }

  /**
   * `os.path.basename(path).split('.')[0]`: the basename's text before its
   * first `.`, so a prefix of the basename holding neither `.` nor `/`.
   */
  function SampleName(path: string): (name: string)
    ensures '.' !in name && '/' !in name
    ensures StartsWith(Basename(path), name)
    ensures |name| < |Basename(path)| ==> Basename(path)[|name|] == '.'
  {
    var b := Basename(path);
    SplitFirst(b, '.');
    var name := Split(b, '.')[0];
    assert forall k :: 0 <= k < |name| ==> name[k] == b[k];
    name
  }

  /** A basename without `.` is the sample name as it is. */
  lemma SampleNameWithoutDot(path: string)
    requires '.' !in Basename(path)
    ensures SampleName(path) == Basename(path)
  {
  }

  /** A basename starting with `.` gives the empty sample name. */
  lemma SampleNameLeadingDot(path: string)
    requires StartsWith(Basename(path), ".")
    ensures SampleName(path) == ""
  {
  }

  /** The cell of column `frame` in the row of feature `f`. */
  function Cell(frame: Frame, f: FeatureId): Option<Count> {
    if f in frame.values then Some(frame.values[f]) else None
  }

  /**
   * The outer join of the frames: one column per frame, in order and named
   * as the frame's column; one row per feature ID of any frame; each cell
   * holds that frame's value for that feature, or is missing.
   */
  ghost predicate IsOuterJoin(frames: seq<Frame>, m: Matrix) {
    && |m.columns| == |frames|
    && (forall i :: 0 <= i < |frames| ==> m.columns[i] == frames[i].column)
    && (forall f :: f in m.rows <==> exists i :: 0 <= i < |frames| && f in frames[i].values)
    && (forall f :: f in m.rows ==> |m.rows[f]| == |frames|)
    && (forall f, i :: f in m.rows && 0 <= i < |frames| ==> m.rows[f][i] == Cell(frames[i], f))
  }

  /** Join one more frame on the right: rows it lacks get a missing cell, rows only it has get missing cells before. */
  function JoinColumn(m: Matrix, frame: Frame): Matrix {
    var n := |m.columns|;
    Matrix(
      m.columns + [frame.column],
      map f | f in m.rows.Keys + frame.values.Keys ::
        (if f in m.rows then m.rows[f] else seq(n, _ => None)) + [Cell(frame, f)])
  }

  /** `pd.concat(frames, axis=1)`, built one column at a time. */
  function Concat(frames: seq<Frame>): (m: Matrix)
    ensures IsOuterJoin(frames, m)
    decreases |frames|
  {
    if frames == [] then Matrix([], map[])
    else
      var n := |frames| - 1;
      var prev := Concat(frames[..n]);
      JoinColumnJoins(frames[..n], prev, frames[n]);
      assert frames[..n] + [frames[n]] == frames;
      JoinColumn(prev, frames[n])
  }

  /** Joining one more frame extends an outer join of the others to an outer join of all. */
  lemma JoinColumnJoins(frames: seq<Frame>, m: Matrix, frame: Frame)
    requires IsOuterJoin(frames, m)
    ensures IsOuterJoin(frames + [frame], JoinColumn(m, frame))
  {
    JoinColumnKeys(frames, m, frame);
    JoinColumnCells(frames, m, frame);
  }

  lemma JoinColumnKeys(frames: seq<Frame>, m: Matrix, frame: Frame)
    requires IsOuterJoin(frames, m)
    ensures forall f :: f in JoinColumn(m, frame).rows <==>
      exists i :: 0 <= i < |frames + [frame]| && f in (frames + [frame])[i].values
  {
    var all := frames + [frame];
    var j := JoinColumn(m, frame);
    var n := |frames|;
    forall f | f in j.rows
      ensures exists i :: 0 <= i < |all| && f in all[i].values
    {
      if f in m.rows {
        var i :| 0 <= i < n && f in frames[i].values;
        assert all[i] == frames[i];
      } else {
        assert all[n] == frame;
      }
    }
    forall f, i | 0 <= i < |all| && f in all[i].values ensures f in j.rows {
      if i < n {
        assert all[i] == frames[i];
      }
    }
  }

  lemma JoinColumnCells(frames: seq<Frame>, m: Matrix, frame: Frame)
    requires IsOuterJoin(frames, m)
    ensures forall f :: f in JoinColumn(m, frame).rows ==> |JoinColumn(m, frame).rows[f]| == |frames| + 1
    ensures forall f, i :: f in JoinColumn(m, frame).rows && 0 <= i < |frames| + 1 ==>
      JoinColumn(m, frame).rows[f][i] == Cell((frames + [frame])[i], f)
  {
    var all := frames + [frame];
    var j := JoinColumn(m, frame);
    var n := |frames|;
    forall f, i | f in j.rows && 0 <= i < |all| ensures j.rows[f][i] == Cell(all[i], f) {
      if i < n {
        assert all[i] == frames[i];
        if f !in m.rows {
          assert f !in frames[i].values;
        }
      }
    }
  }

  /** Column `i`, read back as a table, is exactly file `i`'s table: other files never change it. */
  lemma ColumnReadsBack(frames: seq<Frame>, m: Matrix, i: nat)
    requires IsOuterJoin(frames, m) && i < |frames|
    ensures (map f | f in m.rows && m.rows[f][i].Some? :: m.rows[f][i].value) == frames[i].values
  {
  }

  /**
   * `concatenate_counts` (concatenate_counts.py:6-18), up to the CSV write.
   * None when there is no file, where `pd.concat` raises.
   */
  method ConcatenateCounts(countFiles: seq<CountFile>) returns (result: Option<Matrix>)
    ensures result.None? <==> countFiles == []
    ensures result.Some? ==>
      IsOuterJoin(seq(|countFiles|, i requires 0 <= i < |countFiles| =>
        Frame(SampleName(countFiles[i].path), countFiles[i].frame.values)), result.value)
  {
    var dfs: seq<Frame> := [];
    for i := 0 to |countFiles|
      invariant |dfs| == i
      invariant forall k :: 0 <= k < i ==>
        dfs[k] == Frame(SampleName(countFiles[k].path), countFiles[k].frame.values)
    {
      var sampleName := SampleName(countFiles[i].path);
      var df := countFiles[i].frame;
      df := df.(column := sampleName);
      dfs := dfs + [df];
    }
    if dfs == [] {
      return None;
    }
    assert dfs == seq(|countFiles|, i requires 0 <= i < |countFiles| =>
      Frame(SampleName(countFiles[i].path), countFiles[i].frame.values));
    result := Some(Concat(dfs));
  }

  /** A path without `/` is its own basename. */
  lemma BasenameWithoutSlash(path: string)
    requires '/' !in path
    ensures Basename(path) == path
  {
  }

  /** The sample name ends exactly at the basename's first `.`. */
  lemma SampleNameAtFirstDot(path: string, k: nat)
    requires k < |Basename(path)| && Basename(path)[k] == '.'
    requires forall j :: 0 <= j < k ==> Basename(path)[j] != '.'
    ensures SampleName(path) == Basename(path)[..k]
  {
    var b, name := Basename(path), SampleName(path);
    assert |name| == k;
  }

  /** `sampleA.counts.tsv` is sample `sampleA`. */
  lemma SampleNameExample(path: string)
    requires path == "sampleA.counts.tsv"
    ensures SampleName(path) == "sampleA"
  {
    assert forall k :: 0 <= k < |path| ==> path[k] != '/';
    BasenameWithoutSlash(path);
    assert forall j :: 0 <= j < 7 ==> path[j] != '.';
    SampleNameAtFirstDot(path, 7);
    assert path[..7] == "sampleA";
  }

  /**
   * Sample `s1` counts geneA 5; sample `s2` counts geneA 3 and geneB 7. The
   * joined matrix has rows geneA and geneB, with geneB missing from `s1`.
   */
  lemma MatrixExample(m: Matrix)
    requires IsOuterJoin([Frame("s1", map["geneA" := 5]), Frame("s2", map["geneA" := 3, "geneB" := 7])], m)
    ensures m.columns == ["s1", "s2"]
    ensures m.rows == map["geneA" := [Some(5), Some(3)], "geneB" := [None, Some(7)]]
  {
    var frames := [Frame("s1", map["geneA" := 5]), Frame("s2", map["geneA" := 3, "geneB" := 7])];
    assert m.columns[0] == "s1" && m.columns[1] == "s2";
    assert "geneA" in frames[0].values;
    assert "geneB" in frames[1].values;
    forall f | f in m.rows ensures f == "geneA" || f == "geneB" {
      var i :| 0 <= i < 2 && f in frames[i].values;
    }
    assert m.rows.Keys == {"geneA", "geneB"};
    assert m.rows["geneA"][0] == Some(5) && m.rows["geneA"][1] == Some(3);
    assert m.rows["geneB"][0] == None && m.rows["geneB"][1] == Some(7);
    assert m.rows["geneA"] == [Some(5), Some(3)];
    assert m.rows["geneB"] == [None, Some(7)];
  }
}
