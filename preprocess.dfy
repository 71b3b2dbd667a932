/**
 * The `preprocess` command of `cli/preprocess.py`: unless a previous analysis is
 * kept, analyse every Rust file under each configured source path of the crate and
 * concatenate the per-file record lists, kind by kind, into one result.
 *
 * The crate's file system is the map `crate`: a source path that exists maps to the
 * `.rs` files found under it, in the order the recursive search lists them, each
 * with its path relative to the crate and what reading it gives. The reading and
 * parsing of the files and the writing of the result document are not part of the
 * model; the method returns the document's contents instead.
 */
module Preprocess {
  import opened Wrappers
  import opened Records
  import opened RustAnalyzer

  /** One `.rs` file found under a source path. */
  datatype SourceFile = SourceFile(relPath: Option<string>, reading: Reading)

  /** The source paths of the library's configuration; `src` when it names none. */
  function SourcePaths(configured: Option<seq<string>>): (r: seq<string>)
    ensures configured.None? ==> r == ["src"]
    ensures configured.Some? ==> r == configured.value
  {
    configured.GetOr(["src"])
  }

  /** The records one file contributes: its seven lists, or none when its analysis
      failed. */
  function FileRecords(f: SourceFile): Declarations
  {
    KindsOf(Analysis(f.relPath, f.reading))
  }

  /** The records of `files`, file after file. */
  function FilesTotal(files: seq<SourceFile>): Declarations
  {
    if files == [] then Empty
    else FilesTotal(files[..|files| - 1]).Append(FileRecords(files[|files| - 1]))
  }

  /** The records found under one source path: none when the path does not exist. */
  function PathRecords(crate: map<string, seq<SourceFile>>, path: string): Declarations
  {
    if path in crate then FilesTotal(crate[path]) else Empty
  }

  /** The records of all the source paths, path after path. */
  function Aggregate(crate: map<string, seq<SourceFile>>, paths: seq<string>): Declarations
  {
    if paths == [] then Empty
    else Aggregate(crate, paths[..|paths| - 1]).Append(PathRecords(crate, paths[|paths| - 1]))
  }

  /** `preprocess`: `None` when a result document exists and re-analysis is not
      forced; otherwise the seven lists, each the concatenation of the same list of
      every file, in source-path order and file order. */
  method Preprocess(astExists: bool, force: bool, configured: Option<seq<string>>, crate: map<string, seq<SourceFile>>)
    returns (r: Option<Declarations>)
    ensures astExists && !force ==> r.None?
    ensures !(astExists && !force) ==> r == Some(Aggregate(crate, SourcePaths(configured)))
  {
    if astExists && !force {
      return None;
    }
    var paths := SourcePaths(configured);
    var results := new KindLists();
    for i := 0 to |paths|
      invariant results.Contents() == Aggregate(crate, paths[..i])
    {
      var path := paths[i];
      ghost var base := results.Contents();
      if path in crate {
        var files := crate[path];
        for j := 0 to |files|
          invariant results.Contents() == base.Append(FilesTotal(files[..j]))
        {
          var fileResult := AnalyzeFile(files[j].relPath, files[j].reading);
          FileStep(base, files, j, results.Contents(), fileResult);
          results.Extend(KindsOf(fileResult));
        }
      }
      PathStep(crate, paths, i, base, results.Contents());
    }
    assert paths[..|paths|] == paths;
    return Some(results.Contents());
  }

  /** Extending the result with the lists of the next file of a path. */
  lemma FileStep(base: Declarations, files: seq<SourceFile>, j: nat, before: Declarations, fileResult: FileResult)
    requires j < |files| && before == base.Append(FilesTotal(files[..j]))
    requires fileResult == Analysis(files[j].relPath, files[j].reading)
    ensures before.Append(KindsOf(fileResult)) == base.Append(FilesTotal(files[..j + 1]))
  {
    assert files[..j + 1][..j] == files[..j];
    AppendStep(base, FilesTotal(files[..j]), KindsOf(fileResult), FilesTotal(files[..j + 1]), before);
  }

  /** After the files of the next path, or nothing for a missing one. */
  lemma PathStep(crate: map<string, seq<SourceFile>>, paths: seq<string>, i: nat, base: Declarations, after: Declarations)
    requires i < |paths| && base == Aggregate(crate, paths[..i])
    requires paths[i] in crate ==> after == base.Append(FilesTotal(crate[paths[i]][..|crate[paths[i]]|]))
    requires paths[i] !in crate ==> after == base
    ensures after == Aggregate(crate, paths[..i + 1])
  {
    assert paths[..i + 1][..i] == paths[..i];
    if paths[i] in crate {
      assert crate[paths[i]][..|crate[paths[i]]|] == crate[paths[i]];
    } else {
      AppendLaws(base, Empty, Empty);
    }
  }

  // ---------------------------------------------------------------------------
  // Properties of the aggregate
  // ---------------------------------------------------------------------------

  /** The aggregate of a list of paths splits at any point of the list: each kind's
      list holds the records of the earlier paths before those of the later ones. */
  lemma {:induction false} AggregateAppend(crate: map<string, seq<SourceFile>>, p: seq<string>, q: seq<string>)
    ensures Aggregate(crate, p + q) == Aggregate(crate, p).Append(Aggregate(crate, q))
    decreases |q|
  {
    if q == [] {
      assert p + q == p;
      AppendLaws(Aggregate(crate, p), Empty, Empty);
    } else {
      var q' := q[..|q| - 1];
      var last := PathRecords(crate, q[|q| - 1]);
      assert (p + q)[..|p + q| - 1] == p + q';
      AggregateAppend(crate, p, q');
      AppendLaws(Aggregate(crate, p), Aggregate(crate, q'), last);
    }
  }

  /** The records of a list of files split at any point of the list. */
  lemma {:induction false} FilesTotalAppend(a: seq<SourceFile>, b: seq<SourceFile>)
    ensures FilesTotal(a + b) == FilesTotal(a).Append(FilesTotal(b))
    decreases |b|
  {
    if b == [] {
      assert a + b == a;
      AppendLaws(FilesTotal(a), Empty, Empty);
    } else {
      var b' := b[..|b| - 1];
      assert (a + b)[..|a + b| - 1] == a + b';
      FilesTotalAppend(a, b');
      AppendLaws(FilesTotal(a), FilesTotal(b'), FileRecords(b[|b| - 1]));
    }
  }

  /** A source path that does not exist adds nothing, and the paths after it are
      still taken. */
  lemma MissingPathSkipped(crate: map<string, seq<SourceFile>>, p: seq<string>, path: string, q: seq<string>)
    requires path !in crate
    ensures Aggregate(crate, p + [path] + q) == Aggregate(crate, p + q)
  {
    AggregateAppend(crate, p + [path], q);
    AggregateAppend(crate, p, q);
    assert (p + [path])[..|p + [path]| - 1] == p;
    AppendLaws(Aggregate(crate, p), Empty, Empty);
  }

  /** A file whose analysis failed adds nothing, and the files after it are still
      taken. */
  lemma FailedFileSkipped(a: seq<SourceFile>, f: SourceFile, b: seq<SourceFile>)
    requires Analysis(f.relPath, f.reading).Failed?
    ensures FilesTotal(a + [f] + b) == FilesTotal(a + b)
  {
    FilesTotalAppend(a + [f], b);
    FilesTotalAppend(a, b);
    assert (a + [f])[..|a + [f]| - 1] == a;
    AppendLaws(FilesTotal(a), Empty, Empty);
  }

  /** With no source path, or only missing ones, the result is seven empty lists. */
  lemma {:induction false} NoPathsNoRecords(crate: map<string, seq<SourceFile>>, paths: seq<string>)
    requires forall k :: 0 <= k < |paths| ==> paths[k] !in crate
    ensures Aggregate(crate, paths) == Empty
    decreases |paths|
  {
    if paths != [] {
      var p' := paths[..|paths| - 1];
      NoPathsNoRecords(crate, p');
      AppendLaws(Empty, Empty, Empty);
    }
  }

  /** Every function record of the aggregate is a record of one file found under one
      of the source paths, from a successful analysis of that file. */
  lemma {:induction false} AggregateFunctionFrom(crate: map<string, seq<SourceFile>>, paths: seq<string>, g: FunctionRecord)
    requires g in Aggregate(crate, paths).functions
    ensures exists k, j :: (0 <= k < |paths| && paths[k] in crate && 0 <= j < |crate[paths[k]]|
      && g in FileRecords(crate[paths[k]][j]).functions)
    decreases |paths|
  {
    var n := |paths| - 1;
    var p' := paths[..n];
    if g in Aggregate(crate, p').functions {
      AggregateFunctionFrom(crate, p', g);
      var k, j :| 0 <= k < |p'| && p'[k] in crate && 0 <= j < |crate[p'[k]]|
        && g in FileRecords(crate[p'[k]][j]).functions;
      assert paths[k] == p'[k];
    } else {
      assert paths[n] in crate;
      var j := FilesFunctionFrom(crate[paths[n]], g);
    }
  }

  lemma {:induction false} FilesFunctionFrom(files: seq<SourceFile>, g: FunctionRecord) returns (j: nat)
    requires g in FilesTotal(files).functions
    ensures j < |files| && g in FileRecords(files[j]).functions
    decreases |files|
  {
    var n := |files| - 1;
    if g in FilesTotal(files[..n]).functions {
      j := FilesFunctionFrom(files[..n], g);
    } else {
      j := n;
    }
  }

  /** A failed analysis contributes nothing, a successful one exactly the records of
      the walk; the per-file `file` name is not part of what is merged. */
  lemma FileRecordsAre(f: SourceFile)
    ensures Analysis(f.relPath, f.reading).Failed? ==> FileRecords(f) == Empty
    ensures Analysis(f.relPath, f.reading).Analyzed? ==>
      FileRecords(f) == Walk(f.reading.tree, f.reading.code)
  {
  }
}
