/**
 * The harness synthesizer of `src/generator/rust_generator.py`: the random choice
 * of a set of target functions, the lookup of their records, the prompt sent to the
 * language model and the clean-up of its reply into a harness text.
 *
 * The generator's fields are set once when it is built and never change, so the
 * function records are passed to each operation. The language model is the
 * parameter `gen`: `gen(prompt)` is its reply, `None` when the call raised.
 */
module RustGenerator {
  import opened Wrappers
  import opened Text
  import opened Sequences
  import opened Records

  /** Why an attempt to generate a harness failed. */
  datatype GenError =
    | NegativeSampleSize    // `random.sample` refused a negative set size
    | NoValidFunction       // none of the selected names has a record
    | BackendFailure        // the language model call raised

  // ---------------------------------------------------------------------------
  // `select_functions`
  // ---------------------------------------------------------------------------

  /** `idx` are distinct positions of a sequence of length `n`. */
  predicate DistinctIndices(idx: seq<nat>, n: nat)
  {
    (forall k :: 0 <= k < |idx| ==> idx[k] < n)
    && forall k, l :: 0 <= k < l < |idx| ==> idx[k] != idx[l]
  }

  /** `picked` lists the elements of `pool` at the distinct positions `idx`. */
  predicate PicksAt(pool: seq<string>, picked: seq<string>, idx: seq<nat>)
  {
    |picked| == |idx| && DistinctIndices(idx, |pool|)
    && forall k :: 0 <= k < |idx| ==> picked[k] == pool[idx[k]]
  }

  /** What `random.sample(pool, size)` may return: `size` elements of `pool` taken
      from distinct positions, in any order. */
  ghost predicate IsSample(pool: seq<string>, size: int, picked: seq<string>)
  {
    |picked| == size && exists idx :: PicksAt(pool, picked, idx)
  }

  /** `select_functions`: the whole pool when it has at most `size` names, otherwise
      a random sample of `size` of them. The sample is any one that fits its
      contract; a negative `size` makes the sample raise. */
  method SelectFunctions(pool: seq<string>, size: int) returns (r: Result<seq<string>, GenError>)
    ensures |pool| <= size ==> r == Success(pool)
    ensures size < 0 ==> r == Failure(NegativeSampleSize)
    ensures 0 <= size < |pool| ==> r.Success? && IsSample(pool, size, r.value)
  {
    if |pool| <= size {
      return Success(pool);
    }
    if size < 0 {
      return Failure(NegativeSampleSize);
    }
    ghost var first: seq<nat> := seq(size, k requires 0 <= k < size => k);
    assert DistinctIndices(first, |pool|);
    var idx: seq<nat> :| |idx| == size && DistinctIndices(idx, |pool|);
    assert DistinctIndices(idx, |pool|);
    assert forall k :: 0 <= k < |idx| ==> idx[k] < |pool|;
    var picked := seq(size, k requires 0 <= k < size => pool[idx[k]]);
    assert PicksAt(pool, picked, idx);
    return Success(picked);
  }

  /** A sample holds as many names as asked for, each from the pool, and it never
      takes one position of the pool twice, so it holds no name more often than
      the pool does. */
  lemma {:induction false} SampleFromPool(pool: seq<string>, size: int, picked: seq<string>)
    requires IsSample(pool, size, picked)
    ensures |picked| == size <= |pool|
    ensures multiset(picked) <= multiset(pool)
  {
    var idx :| PicksAt(pool, picked, idx);
    PicksAtMultiset(pool, picked, idx);
    assert |multiset(picked)| <= |multiset(pool)| by {
      SubMultisetCard(multiset(picked), multiset(pool));
    }
  }

  lemma SubMultisetCard(a: multiset<string>, b: multiset<string>)
    requires a <= b
    ensures |a| <= |b|
  {
    assert b == a + (b - a);
  }

  /** `pool` without its element at position `j`. */
  function RemoveAt(pool: seq<string>, j: nat): (r: seq<string>)
    requires j < |pool|
    ensures |r| == |pool| - 1
  {
    pool[..j] + pool[j + 1..]
  }

  lemma RemoveAtMultiset(pool: seq<string>, j: nat)
    requires j < |pool|
    ensures multiset(pool) == multiset(RemoveAt(pool, j)) + multiset{pool[j]}
  {
    assert pool == pool[..j] + [pool[j]] + pool[j + 1..];
  }

  /** The positions `idx` once position `j` is removed from the pool. */
  function Shift(idx: seq<nat>, j: nat): (r: seq<nat>)
    ensures |r| == |idx|
  {
    seq(|idx|, k requires 0 <= k < |idx| => if idx[k] <= j then idx[k] else idx[k] - 1)
  }

  /** After the first pick, the other picks are picks at distinct positions of the
      pool without the first one's position. */
  lemma PicksAtRest(pool: seq<string>, picked: seq<string>, idx: seq<nat>)
    requires PicksAt(pool, picked, idx) && idx != []
    ensures PicksAt(RemoveAt(pool, idx[0]), picked[1..], Shift(idx[1..], idx[0]))
  {
    var j := idx[0];
    var rest := RemoveAt(pool, j);
    var idx' := Shift(idx[1..], j);
    forall k | 0 <= k < |idx'|
      ensures idx'[k] < |rest| && picked[1..][k] == rest[idx'[k]]
    {
      assert idx[k + 1] != j;
      if idx[k + 1] < j {
        assert rest[idx'[k]] == pool[idx[k + 1]];
      } else {
        assert rest[idx'[k]] == pool[j + 1..][idx[k + 1] - j - 1];
      }
    }
    forall k, l | 0 <= k < l < |idx'|
      ensures idx'[k] != idx'[l]
    {
      assert idx[k + 1] != idx[l + 1] && idx[k + 1] != j && idx[l + 1] != j;
    }
  }

  /** The elements at distinct positions form a sub-multiset of the pool. */
  lemma {:induction false} PicksAtMultiset(pool: seq<string>, picked: seq<string>, idx: seq<nat>)
    requires PicksAt(pool, picked, idx)
    ensures multiset(picked) <= multiset(pool)
    decreases |idx|
  {
    if idx != [] {
      var j := idx[0];
      PicksAtRest(pool, picked, idx);
      PicksAtMultiset(RemoveAt(pool, j), picked[1..], Shift(idx[1..], j));
      RemoveAtMultiset(pool, j);
      assert picked == [picked[0]] + picked[1..];
      assert multiset(picked) == multiset{pool[j]} + multiset(picked[1..]);
    }
  }

  // ---------------------------------------------------------------------------
  // `_get_function_info`
  // ---------------------------------------------------------------------------

  /** `fs[i]` is the first record of `fs` named `name`. */
  predicate IsFirstNamed(fs: seq<FunctionRecord>, name: string, i: int)
  {
    0 <= i < |fs| && fs[i].name == name && forall j :: 0 <= j < i ==> fs[j].name != name
  }

  /** `_get_function_info`: the first record named `name`, in list order, or `None`
      when no record has that name. */
  function GetFunctionInfo(fs: seq<FunctionRecord>, name: string): (r: Option<FunctionRecord>)
    ensures forall i :: IsFirstNamed(fs, name, i) ==> r == Some(fs[i])
    ensures r.None? <==> forall j :: 0 <= j < |fs| ==> fs[j].name != name
    ensures r.Some? ==> r.value in fs && r.value.name == name
  {
    if fs == [] then None
    else if fs[0].name == name then Some(fs[0])
    else
      var r := GetFunctionInfo(fs[1..], name);
      assert forall i :: IsFirstNamed(fs, name, i) ==> IsFirstNamed(fs[1..], name, i - 1);
      r
  }

  /** The record of one selected name, as a list of at most one element. */
  function Found(fs: seq<FunctionRecord>, name: string): (r: seq<FunctionRecord>)
    ensures |r| <= 1
    ensures r == [] <==> GetFunctionInfo(fs, name).None?
    ensures forall k :: 0 <= k < |r| ==> r[k] in fs
  {
    match GetFunctionInfo(fs, name) case Some(f) => [f] case None => []
  }

  /** The records of the selected names that have one, in the order of the names;
      names without a record are dropped. */
  function Resolve(fs: seq<FunctionRecord>, names: seq<string>): (r: seq<FunctionRecord>)
    ensures |r| <= |names|
    ensures forall k :: 0 <= k < |r| ==> r[k] in fs
  {
    if names == [] then [] else Found(fs, names[0]) + Resolve(fs, names[1..])
  }

  /** Resolving two lists of names one after the other is resolving their join. */
  lemma {:induction false} ResolveAppend(fs: seq<FunctionRecord>, a: seq<string>, b: seq<string>)
    ensures Resolve(fs, a + b) == Resolve(fs, a) + Resolve(fs, b)
  {
    if a == [] {
      assert a + b == b;
    } else {
      var own := Found(fs, a[0]);
      assert (a + b)[0] == a[0];
      assert (a + b)[1..] == a[1..] + b;
      calc {
        Resolve(fs, a + b);
        own + Resolve(fs, a[1..] + b);
        { ResolveAppend(fs, a[1..], b); }
        own + (Resolve(fs, a[1..]) + Resolve(fs, b));
        (own + Resolve(fs, a[1..])) + Resolve(fs, b);
      }
    }
  }

  /** Resolving one more name adds its record, when it has one. */
  lemma ResolveStep(fs: seq<FunctionRecord>, names: seq<string>, i: nat)
    requires i < |names|
    ensures Resolve(fs, names[..i + 1]) == Resolve(fs, names[..i]) + Found(fs, names[i])
  {
    assert names[..i + 1] == names[..i] + [names[i]];
    ResolveAppend(fs, names[..i], [names[i]]);
    ResolveOne(fs, names[i]);
  }

  lemma ResolveOne(fs: seq<FunctionRecord>, name: string)
    ensures Resolve(fs, [name]) == Found(fs, name)
  {
    assert [name][1..] == [];
  }

  /** Nothing resolves exactly when no selected name is the name of a record; in
      particular an empty selection resolves to nothing. */
  lemma {:induction false} ResolveEmpty(fs: seq<FunctionRecord>, names: seq<string>)
    ensures Resolve(fs, names) == [] <==> forall k :: 0 <= k < |names| ==> GetFunctionInfo(fs, names[k]).None?
  {
    if names != [] {
      ResolveEmpty(fs, names[1..]);
      assert forall k :: 0 < k < |names| ==> names[k] == names[1..][k - 1];
    }
  }

  // ---------------------------------------------------------------------------
  // `_build_prompt`
  // ---------------------------------------------------------------------------

  const PromptHead := "你是一个 Rust fuzzing 专家。请为以下函数生成一个 fuzz target。\n\n要求:\n1. 使用 libfuzzer (cargo-fuzz) 格式\n2. 正确处理 Rust 的所有权和生命周期\n3. 生成合理的测试输入\n4. 处理可能的错误情况\n5. 使用 arbitrary crate 生成结构化输入\n\n目标函数:\n"

  const PromptTail := "\n请生成完整的 fuzz target 代码，包括:\n1. 必要的 use 语句\n2. fuzz_target! 宏定义\n3. 输入数据解析\n4. 函数调用\n5. 错误处理\n\n代码格式:\n```rust\n// fuzz target 代码\n```\n"

  /** `str` of one parameter dictionary: `{'name': ..., 'type': ...}`. */
  function ParamRepr(p: Param): (r: string)
    ensures |r| >= 24 && r[..9] == "{'name': " && r[|r| - 1] == '}'
    ensures 9 + |Repr(p.name)| <= |r| && r[9..9 + |Repr(p.name)|] == Repr(p.name)
  {
    "{'name': " + Repr(p.name) + ", 'type': " + Repr(p.typ) + "}"
  }

  /** `str` of a list of parameter dictionaries. */
  function ParamsRepr(ps: seq<Param>): (r: string)
    ensures ps == [] ==> r == "[]"
    ensures |r| >= 2 && r[0] == '[' && r[|r| - 1] == ']'
  {
    "[" + Join(MapSeq(ps, ParamRepr), ", ") + "]"
  }

  /** The lines of a function's entry in the prompt: its name, its parameters, its
      return type and its doc comment. */
  function NameLine(f: FunctionRecord): string
  {
    "\n函数名: " + f.name + "\n"
  }

  function ParamLine(f: FunctionRecord): string
  {
    "参数: " + ParamsRepr(f.params) + "\n"
  }

  function ReturnLine(f: FunctionRecord): string
  {
    "返回类型: " + f.returnType + "\n"
  }

  function DocLine(f: FunctionRecord): string
  {
    "文档: " + f.docComment + "\n"
  }

  /** The doc line is written only for a non-empty doc comment. */
  function OptionalDocLine(f: FunctionRecord): string
  {
    if f.docComment != "" then DocLine(f) else ""
  }

  /** One function's entry: its name, parameter and return type lines, the doc line
      when there is a doc comment, and an empty line. */
  function Entry(f: FunctionRecord): string
  {
    NameLine(f) + ParamLine(f) + ReturnLine(f) + OptionalDocLine(f) + "\n"
  }

  /** The entries of `fs`, in order. */
  function Entries(fs: seq<FunctionRecord>): string
  {
    Concat(MapSeq(fs, Entry))
  }

  lemma EntriesAppend(a: seq<FunctionRecord>, b: seq<FunctionRecord>)
    ensures Entries(a + b) == Entries(a) + Entries(b)
  {
    MapSeqAppend(a, b, Entry);
    ConcatAppend(MapSeq(a, Entry), MapSeq(b, Entry));
  }

  lemma EntriesOne(f: FunctionRecord)
    ensures Entries([f]) == Entry(f)
  {
    MapSeqSmall(f, Entry);
    assert [Entry(f)][1..] == [];
    assert Concat([Entry(f)]) == Entry(f) + Concat([]);
  }

  /** The entries of a list are those before position `k`, the entry at `k` and those
      after it. */
  lemma EntriesSplit(fs: seq<FunctionRecord>, k: nat)
    requires k < |fs|
    ensures Entries(fs) == Entries(fs[..k]) + Entry(fs[k]) + Entries(fs[k + 1..])
    ensures Entries(fs[..k + 1]) == Entries(fs[..k]) + Entry(fs[k])
  {
    assert fs == fs[..k] + [fs[k]] + fs[k + 1..];
    assert fs[..k + 1] == fs[..k] + [fs[k]];
    EntriesAppend(fs[..k] + [fs[k]], fs[k + 1..]);
    EntriesAppend(fs[..k], [fs[k]]);
    EntriesOne(fs[k]);
  }

  /** The whole prompt for the resolved records `fs`. */
  function Prompt(fs: seq<FunctionRecord>): string
  {
    PromptHead + Entries(fs) + PromptTail
  }

  /** Appending the entry of the next record to the prompt built so far. */
  lemma PromptStep(fs: seq<FunctionRecord>, i: nat, before: string, after: string)
    requires i < |fs| && before == PromptHead + Entries(fs[..i]) && after == before + Entry(fs[i])
    ensures after == PromptHead + Entries(fs[..i + 1])
  {
    EntriesSplit(fs, i);
  }

  lemma AppendAssoc5(x: string, a: string, b: string, c: string, d: string, e: string)
    ensures x + a + b + c + d + e == x + (a + b + c + d + e)
  {
  }

  /** `_build_prompt`: the fixed head, one entry per record grown line by line with
      `+=`, and the fixed tail. */
  method BuildPrompt(fs: seq<FunctionRecord>) returns (prompt: string)
    ensures prompt == Prompt(fs)
  {
    prompt := PromptHead;
    for i := 0 to |fs|
      invariant prompt == PromptHead + Entries(fs[..i])
    {
      var f := fs[i];
      ghost var before := prompt;
      prompt := prompt + NameLine(f);
      prompt := prompt + ParamLine(f);
      prompt := prompt + ReturnLine(f);
      if f.docComment != "" {
        prompt := prompt + DocLine(f);
      } else {
        assert prompt == prompt + OptionalDocLine(f);
      }
      prompt := prompt + "\n";
      AppendAssoc5(before, NameLine(f), ParamLine(f), ReturnLine(f), OptionalDocLine(f), "\n");
      PromptStep(fs, i, before, prompt);
    }
    assert fs[..|fs|] == fs;
    prompt := prompt + PromptTail;
  }

  /** Every resolved record has its name line in the prompt, and its doc line when it
      has a doc comment. */
  lemma PromptHasEntries(fs: seq<FunctionRecord>, k: nat)
    requires k < |fs|
    ensures Contains(Prompt(fs), NameLine(fs[k]))
    ensures fs[k].docComment != "" ==> Contains(Prompt(fs), DocLine(fs[k]))
  {
    var f := fs[k];
    EntriesSplit(fs, k);
    var lead := NameLine(f) + ParamLine(f) + ReturnLine(f);
    assert Contains(Entry(f), NameLine(f)) by {
      ContainsSelf(NameLine(f));
      ContainsPrefix(NameLine(f), ParamLine(f), NameLine(f));
      ContainsPrefix(NameLine(f) + ParamLine(f), ReturnLine(f), NameLine(f));
      ContainsPrefix(lead, OptionalDocLine(f), NameLine(f));
      ContainsPrefix(lead + OptionalDocLine(f), "\n", NameLine(f));
    }
    InPrompt(fs, k, NameLine(f));
    if f.docComment != "" {
      assert Contains(Entry(f), DocLine(f)) by {
        ContainsSelf(DocLine(f));
        ContainsSuffix(lead, DocLine(f), DocLine(f));
        ContainsPrefix(lead + DocLine(f), "\n", DocLine(f));
      }
      InPrompt(fs, k, DocLine(f));
    }
  }

  /** What an entry contains, the prompt contains. */
  lemma InPrompt(fs: seq<FunctionRecord>, k: nat, sub: string)
    requires k < |fs| && Contains(Entry(fs[k]), sub)
    ensures Contains(Prompt(fs), sub)
  {
    EntriesSplit(fs, k);
    ContainsSuffix(Entries(fs[..k]), Entry(fs[k]), sub);
    ContainsPrefix(Entries(fs[..k]) + Entry(fs[k]), Entries(fs[k + 1..]), sub);
    ContainsSuffix(PromptHead, Entries(fs), sub);
    ContainsPrefix(PromptHead + Entries(fs), PromptTail, sub);
  }

  // ---------------------------------------------------------------------------
  // `_post_process`
  // ---------------------------------------------------------------------------

  const RustFence := "```rust"
  const Fence := "```"
  const UseFuzzTarget := "use libfuzzer_sys::fuzz_target;\n"
  const Header := "#![no_main]\n" + UseFuzzTarget + "use arbitrary::Arbitrary;\n\n"

  lemma HeaderHasUse()
    ensures Contains(Header, "use ")
  {
    assert OccursAt(UseFuzzTarget, "use ", 0);
    ContainsSuffix("#![no_main]\n", UseFuzzTarget, "use ");
    ContainsPrefix("#![no_main]\n" + UseFuzzTarget, "use arbitrary::Arbitrary;\n\n", "use ");
  }

  /** The reply already has a `use` statement or mentions the fuzzing crate. */
  predicate HasUseOrFuzzer(s: string)
  {
    Contains(s, "use ") || Contains(s, "libfuzzer_sys")
  }

  lemma RustFenceHasFence(s: string)
    requires Contains(s, RustFence)
    ensures Contains(s, Fence)
  {
    var i: nat :| OccursAt(s, RustFence, i);
    assert s[i..i + 3] == s[i..i + 7][..3];
    assert OccursAt(s, Fence, i);
  }

  /** The block as `_post_process` slices it: the stripped text from `start` up to
      the next fence. A missing fence makes `find` return -1, so the slice then ends
      one character before the end. */
  function BlockAfterAsWritten(s: string, start: nat): (r: string)
    ensures start <= |s| ==> |r| <= |s| - start
  {
    Strip(Slice(s, start, Find(s, Fence, start)))
  }

  /** The block as it is meant: the stripped text from `start` up to the next fence,
      or up to the end of the reply when no fence follows. */
  function BlockAfter(s: string, start: nat): (r: string)
    ensures start <= |s| ==> |r| <= |s| - start
  {
    var end := Find(s, Fence, start);
    Strip(Slice(s, start, if end == -1 then |s| else end))
  }

  /** The two agree whenever a fence follows `start`. */
  lemma BlockAfterClosedAgrees(s: string, start: nat)
    requires Find(s, Fence, start) != -1
    ensures BlockAfterAsWritten(s, start) == BlockAfter(s, start)
  {
  }

  /** The code block of a reply: the text after the first `` ```rust `` up to the
      next fence, else the same after the first bare fence, else the reply as it is. */
  function Extract(s: string): (r: string)
    ensures !Contains(s, Fence) ==> r == s
    ensures Contains(s, Fence) ==> |r| <= |s| - 3
  {
    if Contains(s, RustFence) then
      RustFenceHasFence(s);
      BlockAfter(s, Find(s, RustFence, 0) + 7)
    else if Contains(s, Fence) then
      BlockAfter(s, Find(s, Fence, 0) + 3)
    else
      assert !Contains(s, RustFence) by {
        if Contains(s, RustFence) { RustFenceHasFence(s); }
      }
      s
  }

  /** The reply needs the standard header. */
  predicate NeedsHeader(code: string)
  {
    !Contains(code, "use ") && !Contains(code, "libfuzzer_sys")
  }

  /** `_post_process`: the code block of the reply, with the standard header in front
      exactly when the block has neither a `use` statement nor a mention of the
      fuzzing crate. The result always has one of the two. */
  function PostProcess(reply: string): (r: string)
    ensures HasUseOrFuzzer(r)
    ensures NeedsHeader(Extract(reply)) ==> r == Header + Extract(reply)
    ensures !NeedsHeader(Extract(reply)) ==> r == Extract(reply)
  {
    var code := Extract(reply);
    if NeedsHeader(code) then
      HeaderHasUse();
      ContainsPrefix(Header, code, "use ");
      Header + code
    else code
  }

  /** `s.find(sub, start)` is `j` when `sub` occurs at `j` and nowhere between
      `start` and `j`. */
  lemma FindIs(s: string, sub: string, start: nat, j: nat)
    requires start <= j && OccursAt(s, sub, j)
    requires forall i: nat :: start <= i < j ==> !OccursAt(s, sub, i)
    ensures Find(s, sub, start) == j
  {
  }

  /** Text that has no fence and does not end in a backtick, followed by a fence:
      the first fence from the start of that text is the one right after it. A
      fence that began inside the text and ran into the next one would need the
      text to end in a backtick. */
  lemma FenceAfter(s: string, from: nat, b: string)
    requires !Contains(b, Fence) && (b == "" || b[|b| - 1] != '`')
    requires from + |b| + 3 <= |s| && s[from..from + |b|] == b
    requires s[from + |b|..from + |b| + 3] == Fence
    ensures Find(s, Fence, from) == from + |b|
  {
    var q := from + |b|;
    forall i: nat | from <= i < q
      ensures !OccursAt(s, Fence, i)
    {
      if i + 3 <= q {
        NoFenceInside(s, from, b, i);
      } else {
        assert s[q - 1] == s[from..q][|b| - 1];
        NoFenceAcross(s, q, i);
      }
    }
    FindIs(s, Fence, from, q);
  }

  /** No fence lies wholly inside a stretch of `s` that holds text without one. */
  lemma NoFenceInside(s: string, from: nat, b: string, i: nat)
    requires from + |b| <= |s| && s[from..from + |b|] == b && !Contains(b, Fence)
    requires from <= i && i + 3 <= from + |b|
    ensures !OccursAt(s, Fence, i)
  {
    var k := i - from;
    assert b[k] == s[i] && b[k + 1] == s[i + 1] && b[k + 2] == s[i + 2];
    assert b[k..k + 3] == s[i..i + 3];
    assert !OccursAt(b, Fence, k);
  }

  /** No fence runs across index `q` when the character before `q` is not a
      backtick. */
  lemma NoFenceAcross(s: string, q: nat, i: nat)
    requires i < q < i + 3 && q <= |s| && s[q - 1] != '`'
    ensures !OccursAt(s, Fence, i)
  {
    if i + 3 <= |s| {
      assert s[i..i + 3][q - 1 - i] == s[q - 1];
    }
  }

  /** Text without a fence that runs to the end of a reply: no fence follows its
      start. */
  lemma NoFenceFrom(s: string, from: nat, b: string)
    requires from <= |s| && s[from..] == b && !Contains(b, Fence)
    ensures Find(s, Fence, from) == -1
  {
    assert s[from..from + |b|] == b;
    forall i: nat | from <= i
      ensures !OccursAt(s, Fence, i)
    {
      if i + 3 <= |s| {
        NoFenceInside(s, from, b, i);
      }
    }
  }

  /** Text without `` ```rust ``, followed by one: the first `` ```rust `` is the one
      right after the text. `` ```rust `` overlaps itself nowhere, so none can start
      inside the text and end inside the one after it. */
  lemma RustFenceAt(s: string, a: string)
    requires |a| + 7 <= |s| && s[..|a|] == a && s[|a|..|a| + 7] == RustFence
    requires !Contains(a, RustFence)
    ensures Find(s, RustFence, 0) == |a|
  {
    var p := |a|;
    forall i: nat | i < p
      ensures !OccursAt(s, RustFence, i)
    {
      if i + 7 <= p {
        assert a[i..i + 7] == s[..p][i..i + 7] == s[i..i + 7];
        assert !OccursAt(a, RustFence, i);
      } else {
        RustFenceOverlap(s, p, i);
      }
    }
    FindIs(s, RustFence, 0, p);
  }

  /** No `` ```rust `` starts less than seven characters before another one. */
  lemma RustFenceOverlap(s: string, p: nat, i: nat)
    requires i < p < i + 7 && p + 7 <= |s| && s[p..p + 7] == RustFence
    ensures !OccursAt(s, RustFence, i)
  {
    var w := s[i..i + 7];
    var u := s[p..p + 7];
    assert s[p] == u[0] && s[p + 1] == u[1] && s[p + 2] == u[2];
    if i == p - 1 {
      assert w[3] == s[p + 2];
    } else if i == p - 2 {
      assert w[3] == s[p + 1];
    } else if i == p - 3 {
      assert w[3] == s[p];
    } else if i == p - 4 {
      assert w[4] == s[p];
    } else if i == p - 5 {
      assert w[5] == s[p];
    } else {
      assert w[6] == s[p];
    }
  }

  /** A reply made of free text without `` ```rust ``, a `` ```rust `` block without
      a fence that does not end in a backtick, a fence and anything after it yields
      the stripped block. */
  lemma ExtractRustBlock(a: string, b: string, c: string)
    requires !Contains(a, RustFence)
    requires !Contains(b, Fence) && (b == "" || b[|b| - 1] != '`')
    ensures Extract(a + RustFence + b + Fence + c) == Strip(b)
  {
    var s := a + RustFence + b + Fence + c;
    var p := |a| + 7;
    RustReplyFences(s, a, b, c, p);
    RustBlockIn(s, |a|, p, p + |b|, b);
  }

  /** The fences of such a reply are found right after the free text and right after
      the block. */
  lemma RustReplyFences(s: string, a: string, b: string, c: string, p: nat)
    requires !Contains(a, RustFence)
    requires !Contains(b, Fence) && (b == "" || b[|b| - 1] != '`')
    requires s == a + RustFence + b + Fence + c && p == |a| + 7
    ensures p + |b| <= |s| && s[p..p + |b|] == b
    ensures Find(s, RustFence, 0) == |a| && Find(s, Fence, p) == p + |b|
  {
    PartsAt(s, a, RustFence, b, Fence, c, p);
    RustFenceAt(s, a);
    FenceAfter(s, p, b);
  }

  /** Where the parts of a reply made of free text, an opening fence `open`, a block,
      a closing fence `close` and the rest lie in it; the block starts at `p`. */
  lemma PartsAt(s: string, a: string, open: string, b: string, close: string, c: string, p: nat)
    requires s == a + open + b + close + c && p == |a| + |open|
    ensures p + |b| + |close| <= |s|
    ensures s[..|a|] == a && s[0..|a|] == a && s[|a|..p] == open
    ensures s[p..p + |b|] == b && s[p + |b|..p + |b| + |close|] == close
  {
  }

  /** A reply whose first `` ```rust `` is at `i` and whose next fence after the
      block starting at `p` is at `j`. */
  lemma RustBlockIn(s: string, i: nat, p: nat, j: nat, b: string)
    requires Find(s, RustFence, 0) == i && p == i + 7 && Find(s, Fence, p) == j
    requires p <= j <= |s| && s[p..j] == b
    ensures Extract(s) == Strip(b)
  {
    assert Contains(s, RustFence);
    assert Slice(s, p, j) == b;
    assert Extract(s) == BlockAfter(s, p);
  }

  /** The same with a bare fence, when the reply has no `` ```rust `` and the free
      text before the block neither holds a fence nor ends in a backtick. */
  lemma ExtractBareBlock(a: string, b: string, c: string)
    requires !Contains(a, Fence) && (a == "" || a[|a| - 1] != '`')
    requires !Contains(b, Fence) && (b == "" || b[|b| - 1] != '`')
    requires !Contains(a + Fence + b + Fence + c, RustFence)
    ensures Extract(a + Fence + b + Fence + c) == Strip(b)
  {
    var s := a + Fence + b + Fence + c;
    var p := |a| + 3;
    BareReplyFences(s, a, b, c, p);
    BareBlockIn(s, |a|, p, p + |b|, b);
  }

  /** The fences of a reply made of free text, a bare block and anything after it
      are found right after the free text and right after the block. */
  lemma BareReplyFences(s: string, a: string, b: string, c: string, p: nat)
    requires !Contains(a, Fence) && (a == "" || a[|a| - 1] != '`')
    requires !Contains(b, Fence) && (b == "" || b[|b| - 1] != '`')
    requires s == a + Fence + b + Fence + c && p == |a| + 3
    ensures p + |b| <= |s| && s[p..p + |b|] == b
    ensures Find(s, Fence, 0) == |a| && Find(s, Fence, p) == p + |b|
  {
    PartsAt(s, a, Fence, b, Fence, c, p);
    BareFences(s, a, b, p);
  }

  /** Where the two fences of such a reply are found. */
  lemma BareFences(s: string, a: string, b: string, p: nat)
    requires p == |a| + 3 && p + |b| + 3 <= |s|
    requires !Contains(a, Fence) && (a == "" || a[|a| - 1] != '`')
    requires !Contains(b, Fence) && (b == "" || b[|b| - 1] != '`')
    requires s[0..|a|] == a && s[|a|..p] == Fence
    requires s[p..p + |b|] == b && s[p + |b|..p + |b| + 3] == Fence
    ensures Find(s, Fence, 0) == |a| && Find(s, Fence, p) == p + |b|
  {
    FenceAfter(s, 0, a);
    FenceAfter(s, p, b);
  }

  /** A reply without `` ```rust `` whose first fence is at `i` and whose next fence
      after the block starting at `p` is at `j`. */
  lemma BareBlockIn(s: string, i: nat, p: nat, j: nat, b: string)
    requires !Contains(s, RustFence)
    requires Find(s, Fence, 0) == i && p == i + 3 && Find(s, Fence, p) == j
    requires p <= j <= |s| && s[p..j] == b
    ensures Extract(s) == Strip(b)
  {
    assert Contains(s, Fence);
    assert Slice(s, p, j) == b;
    assert Extract(s) == BlockAfter(s, p);
  }

  /** A `` ```rust `` block that is never closed yields all of its stripped text. */
  lemma ExtractUnclosedBlock(a: string, b: string)
    requires !Contains(a, RustFence) && !Contains(b, Fence)
    ensures Extract(a + RustFence + b) == Strip(b)
  {
    var s := a + RustFence + b;
    var p := |a| + 7;
    UnclosedReplyFences(s, a, b, p);
    UnclosedBlockIn(s, |a|, p, b);
  }

  /** As written, a `` ```rust `` block that is never closed loses its last
      character: the missing fence makes `find` return -1, and the slice stops one
      short of the end. */
  lemma UnclosedBlockAsWritten(a: string, b: string)
    requires !Contains(a, RustFence) && !Contains(b, Fence) && b != ""
    ensures BlockAfterAsWritten(a + RustFence + b, |a| + 7) == Strip(b[..|b| - 1])
  {
    var s := a + RustFence + b;
    var p := |a| + 7;
    UnclosedReplyFences(s, a, b, p);
    assert s[p..|s| - 1] == b[..|b| - 1];
    assert Slice(s, p, -1) == b[..|b| - 1];
  }

  /** A reply whose `` ```rust `` block is one line and never closed, such as
      `` ```rust `` + `"\nfn f() {}"`: as written the block loses its last
      character (`fn f() {`), as meant it is the whole line (`fn f() {}`). */
  lemma UnclosedLineBlock(b: string)
    requires |b| >= 3 && b[0] == '\n' && !IsSpace(b[1])
    requires !IsSpace(b[|b| - 2]) && !IsSpace(b[|b| - 1]) && !Contains(b, Fence)
    ensures BlockAfterAsWritten(RustFence + b, 7) == b[1..|b| - 1]
    ensures Extract(RustFence + b) == b[1..]
  {
    assert !Contains("", RustFence);
    assert "" + RustFence + b == RustFence + b;
    UnclosedBlockAsWritten("", b);
    ExtractUnclosedBlock("", b);
    StripLeadingNewline(b[..|b| - 1]);
    StripLeadingNewline(b);
  }

  lemma StripLeadingNewline(s: string)
    requires |s| >= 2 && s[0] == '\n' && !IsSpace(s[1]) && !IsSpace(s[|s| - 1])
    ensures Strip(s) == s[1..]
  {
    assert SkipSpace(s, 1) == 1;
    assert SkipSpace(s, 0) == 1;
    assert SkipSpaceBack(s, 1, |s|) == |s|;
  }

  /** The `` ```rust `` of such a reply is found right after the free text, and no
      fence after it. */
  lemma UnclosedReplyFences(s: string, a: string, b: string, p: nat)
    requires !Contains(a, RustFence) && !Contains(b, Fence)
    requires s == a + RustFence + b && p == |a| + 7
    ensures p <= |s| && s[p..] == b
    ensures Find(s, RustFence, 0) == |a| && Find(s, Fence, p) == -1
  {
    PartsAt(s, a, RustFence, b, "", "", p);
    assert s[p..] == b;
    RustFenceAt(s, a);
    NoFenceFrom(s, p, b);
  }

  /** A reply whose first `` ```rust `` is at `i` with no fence after the block
      starting at `p`. */
  lemma UnclosedBlockIn(s: string, i: nat, p: nat, b: string)
    requires Find(s, RustFence, 0) == i && p == i + 7 && Find(s, Fence, p) == -1
    requires p <= |s| && s[p..] == b
    ensures Extract(s) == Strip(b)
  {
    assert Contains(s, RustFence);
    assert Slice(s, p, |s|) == b;
    assert Extract(s) == BlockAfter(s, p);
  }

  // ---------------------------------------------------------------------------
  // `generate_fuzz_target`
  // ---------------------------------------------------------------------------

  /** What `generate_fuzz_target` gives for the selected names. */
  function FuzzTarget(fs: seq<FunctionRecord>, selected: seq<string>, gen: string -> Option<string>)
    : (r: Result<string, GenError>)
    ensures r.Success? ==> HasUseOrFuzzer(r.value)
    ensures r == Failure(NoValidFunction) <==> Resolve(fs, selected) == []
  {
    var infos := Resolve(fs, selected);
    if infos == [] then Failure(NoValidFunction)
    else match gen(Prompt(infos))
      case None => Failure(BackendFailure)
      case Some(reply) => Success(PostProcess(reply))
  }

  /** `generate_fuzz_target`: look up each selected name, keeping the records found
      in order; raise when none is found; otherwise ask the model with the prompt of
      those records and clean up its reply. */
  method GenerateFuzzTarget(fs: seq<FunctionRecord>, selected: seq<string>, gen: string -> Option<string>)
    returns (r: Result<string, GenError>)
    ensures r == FuzzTarget(fs, selected, gen)
  {
    var infos: seq<FunctionRecord> := [];
    for i := 0 to |selected|
      invariant infos == Resolve(fs, selected[..i])
    {
      var info := GetFunctionInfo(fs, selected[i]);
      ResolveStep(fs, selected, i);
      if info.Some? {
        infos := infos + [info.value];
      }
    }
    assert selected[..|selected|] == selected;
    if infos == [] {
      return Failure(NoValidFunction);
    }
    var prompt := BuildPrompt(infos);
    var reply := gen(prompt);
    if reply.None? {
      return Failure(BackendFailure);
    }
    return Success(PostProcess(reply.value));
  }
}
