/**
 * The `generate` command of `cli/generate.py`: choose the candidate target functions
 * for the chosen task, then make `count` attempts, each sampling a set of candidates,
 * asking the model for a harness and writing it to `fuzz_target_<i+1>.rs`.
 *
 * The analysis document is given as its function records. The model is
 * `replies(i)` in attempt `i`, so that its answers may differ from one attempt to
 * the next. The method returns the files written, in order, instead of writing
 * them; a write is taken to succeed.
 */
module Generate {
  import opened Wrappers
  import opened Text
  import opened Sequences
  import opened Records
  import opened RustGenerator

  /** The `--task` choice. */
  datatype Task = Given | AllCover | AutoScale

  /** One harness file written by an attempt. */
  datatype TargetFile = TargetFile(name: string, code: string)

  // ---------------------------------------------------------------------------
  // Candidate functions
  // ---------------------------------------------------------------------------

  /** The names of the public function records, in record order. */
  function PublicNames(fs: seq<FunctionRecord>): (r: seq<string>)
    ensures |r| <= |fs|
    ensures forall x :: x in r ==> exists f :: f in fs && f.isPub && f.name == x
  {
    if fs == [] then []
    else (if fs[0].isPub then [fs[0].name] else []) + PublicNames(fs[1..])
  }

  /** The comma-separated pieces of the `--functions` option, each stripped. */
  function GivenNames(functions: string): (r: seq<string>)
    ensures |r| == |Split(functions, ',')| >= 1
    ensures forall k :: 0 <= k < |r| ==> r[k] != [] ==> !IsSpace(r[k][0]) && !IsSpace(r[k][|r[k]| - 1])
  {
    MapSeq(Split(functions, ','), Strip)
  }

  /** The target functions of a task: the given names when `given` comes with a
      non-empty list, the public functions for `allcover` and `autoscale`, and none
      otherwise. */
  function Candidates(task: Task, functions: string, fs: seq<FunctionRecord>): (r: seq<string>)
    ensures task == Given && functions == "" ==> r == []
    ensures task == Given && functions != "" ==> |r| == |Split(functions, ',')|
    ensures task != Given ==> |r| <= |fs|
  {
    if task == Given && functions != "" then GivenNames(functions)
    else if task == AllCover || task == AutoScale then PublicNames(fs)
    else []
  }

  /** The number of attempts: `count`, capped by the number of targets for
      `autoscale`; `range` makes a negative number mean none. */
  function Attempts(task: Task, count: int, targets: seq<string>): (n: nat)
    ensures n <= if count < 0 then 0 else count
    ensures task == AutoScale ==> n <= |targets|
    ensures task != AutoScale && count >= 0 ==> n == count
  {
    var c := if task == AutoScale && |targets| < count then |targets| else count;
    if c < 0 then 0 else c
  }

  /** The configured function set size, 3 unless the configuration sets one. */
  function SetSize(configured: Option<int>): (r: int)
    ensures configured.None? ==> r == 3
    ensures configured.Some? ==> r == configured.value
  {
    configured.GetOr(3)
  }

  // ---------------------------------------------------------------------------
  // Attempts and the files they write
  // ---------------------------------------------------------------------------

  /** The name of the file attempt `i` writes. */
  function TargetFileName(i: nat): (r: string)
    ensures |r| > 15 && r[..12] == "fuzz_target_" && r[|r| - 3..] == ".rs"
    ensures r[12..|r| - 3] == NatToString(i + 1)
  {
    "fuzz_target_" + NatToString(i + 1) + ".rs"
  }

  /** Attempts write different files. */
  lemma TargetFileNameInjective(i: nat, j: nat)
    requires TargetFileName(i) == TargetFileName(j)
    ensures i == j
  {
    var a, b := TargetFileName(i), TargetFileName(j);
    assert a[12..|a| - 3] == NatToString(i + 1);
    assert b[12..|b| - 3] == NatToString(j + 1);
    NatToStringInjective(i + 1, j + 1);
  }

  /** What one attempt may end with, given the candidates, the set size, the
      records and that attempt's model: the outcome of generating from a set that
      the selection can return, or the selection's own error. */
  ghost predicate MayYield(targets: seq<string>, size: int, fs: seq<FunctionRecord>,
                           gen: string -> Option<string>, out: Result<string, GenError>)
  {
    if |targets| <= size then out == FuzzTarget(fs, targets, gen)
    else if size < 0 then out == Failure(NegativeSampleSize)
    else exists picked :: IsSample(targets, size, picked) && out == FuzzTarget(fs, picked, gen)
  }

  /** The files the attempts with outcomes `outs` write: one per successful attempt,
      named after the attempt, in attempt order. */
  function Written(outs: seq<Result<string, GenError>>): (r: seq<TargetFile>)
    ensures |r| <= |outs|
  {
    if outs == [] then []
    else
      var n := |outs| - 1;
      Written(outs[..n]) + (if outs[n].Success? then [TargetFile(TargetFileName(n), outs[n].value)] else [])
  }

  /** `generate`: `None` when there is no analysis document; otherwise the files
      written, one for each attempt that did not fail, with their count. */
  method Generate(astExists: bool, fs: seq<FunctionRecord>, count: int, task: Task, functions: string,
                  configured: Option<int>, replies: nat -> string -> Option<string>)
    returns (r: Option<seq<TargetFile>>, generated: nat, ghost outs: seq<Result<string, GenError>>)
    ensures !astExists ==> r.None?
    ensures astExists ==> r.Some? && r.value == Written(outs) && generated == |r.value|
    ensures astExists ==> |outs| == Attempts(task, count, Candidates(task, functions, fs))
    ensures forall i :: 0 <= i < |outs| ==>
      MayYield(Candidates(task, functions, fs), SetSize(configured), fs, replies(i), outs[i])
  {
    outs := [];
    generated := 0;
    if !astExists {
      return None, generated, outs;
    }
    var targets: seq<string> := [];
    var n := count;
    if task == Given && functions != "" {
      targets := GivenNames(functions);
    } else if task == AllCover {
      targets := PublicNames(fs);
    } else if task == AutoScale {
      targets := PublicNames(fs);
      n := if n < |targets| then n else |targets|;
    }
    assert targets == Candidates(task, functions, fs);
    assert (if n < 0 then 0 else n) == Attempts(task, count, targets);
    var size := SetSize(configured);
    var files: seq<TargetFile> := [];
    var i := 0;
    while i < n
      invariant 0 <= i && (n >= 0 ==> i <= n) && (n < 0 ==> i == 0)
      invariant |outs| == i && files == Written(outs) && generated == |files|
      invariant forall k :: 0 <= k < i ==> MayYield(targets, size, fs, replies(k), outs[k])
    {
      var out := Attempt(targets, size, fs, replies(i));
      WrittenStep(outs, out);
      YieldStep(targets, size, fs, replies, outs, out);
      if out.Success? {
        files := files + [TargetFile(TargetFileName(i), out.value)];
        generated := generated + 1;
      }
      outs := outs + [out];
      i := i + 1;
    }
    return Some(files), generated, outs;
  }

  /** The body of one attempt: select, generate, and fail with the first error. */
  method Attempt(targets: seq<string>, size: int, fs: seq<FunctionRecord>, gen: string -> Option<string>)
    returns (out: Result<string, GenError>)
    ensures MayYield(targets, size, fs, gen, out)
  {
    var selected := SelectFunctions(targets, size);
    if selected.Failure? {
      return Failure(selected.error);
    }
    out := GenerateFuzzTarget(fs, selected.value, gen);
    if 0 <= size < |targets| {
      assert IsSample(targets, size, selected.value) && out == FuzzTarget(fs, selected.value, gen);
    }
  }

  lemma YieldStep(targets: seq<string>, size: int, fs: seq<FunctionRecord>,
                  replies: nat -> string -> Option<string>, outs: seq<Result<string, GenError>>,
                  out: Result<string, GenError>)
    requires forall k :: 0 <= k < |outs| ==> MayYield(targets, size, fs, replies(k), outs[k])
    requires MayYield(targets, size, fs, replies(|outs|), out)
    ensures forall k :: 0 <= k < |outs| + 1 ==> MayYield(targets, size, fs, replies(k), (outs + [out])[k])
  {
    forall k | 0 <= k < |outs| + 1
      ensures MayYield(targets, size, fs, replies(k), (outs + [out])[k])
    {
      if k < |outs| {
        assert (outs + [out])[k] == outs[k];
      }
    }
  }

  lemma WrittenStep(outs: seq<Result<string, GenError>>, out: Result<string, GenError>)
    ensures Written(outs + [out])
      == Written(outs) + (if out.Success? then [TargetFile(TargetFileName(|outs|), out.value)] else [])
  {
    assert (outs + [out])[..|outs|] == outs;
  }

  // ---------------------------------------------------------------------------
  // Properties
  // ---------------------------------------------------------------------------

  /** The `k`-th written file comes from a successful attempt, at or after the `k`-th,
      and the attempts of successive files are strictly increasing. */
  function WrittenAttempts(outs: seq<Result<string, GenError>>): (idx: seq<nat>)
    ensures |idx| == |Written(outs)|
    ensures forall k :: 0 <= k < |idx| ==>
      (idx[k] < |outs| && outs[idx[k]].Success?
       && Written(outs)[k] == TargetFile(TargetFileName(idx[k]), outs[idx[k]].value))
    ensures forall k, l :: 0 <= k < l < |idx| ==> idx[k] < idx[l]
  {
    if outs == [] then []
    else
      var n := |outs| - 1;
      var prev := WrittenAttempts(outs[..n]);
      assert forall k :: 0 <= k < |prev| ==> outs[..n][prev[k]] == outs[prev[k]];
      prev + (if outs[n].Success? then [n] else [])
  }

  /** No two written files have the same name. */
  lemma WrittenNamesDistinct(outs: seq<Result<string, GenError>>)
    ensures forall k, l :: 0 <= k < l < |Written(outs)| ==> Written(outs)[k].name != Written(outs)[l].name
  {
    var w, idx := Written(outs), WrittenAttempts(outs);
    forall k, l | 0 <= k < l < |w|
      ensures w[k].name != w[l].name
    {
      if w[k].name == w[l].name {
        TargetFileNameInjective(idx[k], idx[l]);
      }
    }
  }

  /** Every written harness names a `use` or the fuzzing crate. */
  lemma WrittenHasUse(targets: seq<string>, size: int, fs: seq<FunctionRecord>,
                      replies: nat -> string -> Option<string>, outs: seq<Result<string, GenError>>)
    requires forall i :: 0 <= i < |outs| ==> MayYield(targets, size, fs, replies(i), outs[i])
    ensures forall k :: 0 <= k < |Written(outs)| ==> HasUseOrFuzzer(Written(outs)[k].code)
  {
    var idx := WrittenAttempts(outs);
    forall k | 0 <= k < |Written(outs)|
      ensures HasUseOrFuzzer(Written(outs)[k].code)
    {
      YieldHasUse(targets, size, fs, replies(idx[k]), outs[idx[k]]);
    }
  }

  lemma YieldHasUse(targets: seq<string>, size: int, fs: seq<FunctionRecord>,
                    gen: string -> Option<string>, out: Result<string, GenError>)
    requires MayYield(targets, size, fs, gen, out) && out.Success?
    ensures HasUseOrFuzzer(out.value)
  {
    if size >= 0 && |targets| > size {
      var picked :| IsSample(targets, size, picked) && out == FuzzTarget(fs, picked, gen);
    }
  }

  /** With no candidates every attempt fails: the selection is empty, or raises for a
      negative size, and an empty selection resolves to nothing. */
  lemma {:induction false} NoTargetsNoFiles(size: int, fs: seq<FunctionRecord>,
                         replies: nat -> string -> Option<string>, outs: seq<Result<string, GenError>>)
    requires forall i :: 0 <= i < |outs| ==> MayYield([], size, fs, replies(i), outs[i])
    ensures Written(outs) == []
  {
    if outs != [] {
      var n := |outs| - 1;
      NoTargetsFails(size, fs, replies(n), outs[n]);
      assert forall i :: 0 <= i < n ==> outs[..n][i] == outs[i];
      NoTargetsNoFiles(size, fs, replies, outs[..n]);
    }
  }

  lemma NoTargetsFails(size: int, fs: seq<FunctionRecord>, gen: string -> Option<string>, out: Result<string, GenError>)
    requires MayYield([], size, fs, gen, out)
    ensures out.Failure?
  {
    if size >= 0 {
      assert out == FuzzTarget(fs, [], gen);
      assert Resolve(fs, []) == [];
    }
  }

  /** `given` with an empty list has no candidates, whatever the records. */
  lemma GivenEmpty(fs: seq<FunctionRecord>)
    ensures Candidates(Given, "", fs) == []
  {
  }

  /** `given`: the pieces of the list, stripped, in order; joined back with commas
      they give the list again when no piece has white space at its ends. */
  lemma GivenNamesJoin(functions: string)
    requires forall k :: 0 <= k < |Split(functions, ',')| ==>
      var p := Split(functions, ','); p[k] != [] ==> !IsSpace(p[k][0]) && !IsSpace(p[k][|p[k]| - 1])
    ensures Join(GivenNames(functions), ",") == functions
  {
    var parts := Split(functions, ',');
    forall k | 0 <= k < |parts|
      ensures GivenNames(functions)[k] == parts[k]
    {
      StripUnpadded(parts[k]);
    }
    assert GivenNames(functions) == parts;
    JoinSplit(functions, ',');
  }

  /** A name is a candidate of `allcover` exactly when some public record has it. */
  lemma {:induction false} PublicNamesAre(fs: seq<FunctionRecord>, name: string)
    ensures name in PublicNames(fs) <==> exists k :: 0 <= k < |fs| && fs[k].isPub && fs[k].name == name
  {
    if fs != [] {
      PublicNamesAre(fs[1..], name);
      if name in PublicNames(fs[1..]) {
        var k :| 1 <= k + 1 < |fs| && fs[1..][k].isPub && fs[1..][k].name == name;
        assert fs[k + 1].isPub && fs[k + 1].name == name;
      }
      if exists k :: 0 <= k < |fs| && fs[k].isPub && fs[k].name == name {
        var k :| 0 <= k < |fs| && fs[k].isPub && fs[k].name == name;
        if k > 0 {
          assert fs[1..][k - 1] == fs[k];
        }
      }
    }
  }

  /** The candidates of each task: for `given` with a list, the stripped comma pieces
      of the list; for `allcover` and `autoscale`, the names of the public records. */
  lemma CandidatesAre(task: Task, functions: string, fs: seq<FunctionRecord>, name: string)
    ensures task == Given && functions != "" ==>
      (name in Candidates(task, functions, fs) <==>
       exists k :: 0 <= k < |Split(functions, ',')| && Strip(Split(functions, ',')[k]) == name)
    ensures task != Given ==>
      (name in Candidates(task, functions, fs) <==>
       exists k :: 0 <= k < |fs| && fs[k].isPub && fs[k].name == name)
  {
    if task != Given {
      PublicNamesAre(fs, name);
    } else if functions != "" {
      GivenNamesAre(functions, name);
    }
  }

  /** A name is among the given names exactly when some comma-separated piece of
      the option strips to it. */
  lemma GivenNamesAre(functions: string, name: string)
    ensures name in GivenNames(functions) <==>
      exists k :: 0 <= k < |Split(functions, ',')| && Strip(Split(functions, ',')[k]) == name
  {
    var pieces := Split(functions, ',');
    var r := GivenNames(functions);
    assert forall k :: 0 <= k < |pieces| ==> r[k] == Strip(pieces[k]);
    if name in r {
      var k :| 0 <= k < |r| && r[k] == name;
      assert Strip(pieces[k]) == name;
    }
  }

  /** `autoscale` makes no more attempts than there are candidates, and `allcover`
      and `autoscale` have the same candidates. */
  lemma AutoScaleCapped(count: int, functions: string, fs: seq<FunctionRecord>)
    ensures Candidates(AutoScale, functions, fs) == Candidates(AllCover, functions, fs) == PublicNames(fs)
    ensures Attempts(AutoScale, count, PublicNames(fs)) <= |PublicNames(fs)|
    ensures count <= |PublicNames(fs)| ==> Attempts(AutoScale, count, PublicNames(fs)) == Attempts(AllCover, count, PublicNames(fs))
  {
  }
}
