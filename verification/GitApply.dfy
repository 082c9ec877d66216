/**
 Applying a chosen Git result to a directory: files first, then the index, then the branch,
 and back again when anything fails.

 Anyone may edit files, the index or the branch between two steps. The steps of an apply are
 recorded with what they replaced, so that the statements cover every run and every edit.
 */
module GitApply {
  import opened Results
  import GitBatch

  type Bytes = GitBatch.Bytes

  /** Permission bits as in `chmod`; the bits in EXECUTABLE are all that Git tracks. */
  datatype FileState = FileState(bytes: Bytes, mode: bv9)

  const EXECUTABLE: bv9 := 0x049
  const OTHER_BITS: bv9 := 0x1B6

  type FileTree = map<string, FileState>

  function Get(tree: FileTree, name: string): Option<FileState> {
    if name in tree then Some(tree[name]) else None
  }

  function Set(tree: FileTree, name: string, file: Option<FileState>): FileTree {
    if file.Some? then tree[name := file.value] else tree - {name}
  }

  predicate EqualFile(a: Option<FileState>, b: Option<FileState>) {
    || (a.None? && b.None?)
    || (a.Some? && b.Some? && a.value.bytes == b.value.bytes && a.value.mode & EXECUTABLE == b.value.mode & EXECUTABLE)
  }

  /** Files are compared by presence, bytes and the three bits of `chmod` that let somebody execute them. */
  lemma EqualFileMeans(a: Option<FileState>, b: Option<FileState>)
    ensures EqualFile(a, b) <==>
              && (a.Some? <==> b.Some?)
              && (a.Some? ==> a.value.bytes == b.value.bytes
                              && (a.value.mode & 0x040 == b.value.mode & 0x040) && (a.value.mode & 0x008 == b.value.mode & 0x008)
                              && (a.value.mode & 0x001 == b.value.mode & 0x001))
  {
  }

  predicate SameTree(a: FileTree, b: FileTree) {
    |a| == |b| && forall name | name in a :: EqualFile(Some(a[name]), Get(b, name))
  }

  lemma SameKeys(a: FileTree, b: FileTree)
    requires |a| == |b| && a.Keys <= b.Keys
    ensures a.Keys == b.Keys
  {
    if exists name :: name in b && name !in a {
      var name :| name in b && name !in a;
      SubsetSize(a.Keys, b.Keys - {name});
    }
  }

  lemma {:induction false} SubsetSize<T>(a: set<T>, b: set<T>)
    requires a <= b
    ensures |a| <= |b|
  {
    if a != {} {
      var x :| x in a;
      SubsetSize(a - {x}, b - {x});
    }
  }

  /** Comparing sizes and one side's files is comparing every name. */
  lemma SameTreeIsPointwise(a: FileTree, b: FileTree)
    ensures SameTree(a, b) <==> forall name :: EqualFile(Get(a, name), Get(b, name))
  {
    if SameTree(a, b) {
      forall name | name in a ensures name in b {
        assert EqualFile(Some(a[name]), Get(b, name));
      }
      SameKeys(a, b);
      forall name ensures EqualFile(Get(a, name), Get(b, name)) {
      }
    }
    if forall name :: EqualFile(Get(a, name), Get(b, name)) {
      forall name ensures name in a <==> name in b {
        assert EqualFile(Get(a, name), Get(b, name));
      }
      assert a.Keys == b.Keys;
      assert |a| == |a.Keys| && |b| == |b.Keys|;
    }
  }

  // ---------------------------------------------------------------- what the directory becomes

  datatype Choice = Server | Git | Edited

  datatype Preview = Preview(
    before: FileTree, target: FileTree, files: seq<string>, index: Bytes,
    branch: string, currentCommit: string, targetCommit: string)

  predicate Distinct(names: seq<string>) {
    forall i, j | 0 <= i < j < |names| :: names[i] != names[j]
  }

  /** The answer to a comparison: each compared file has a choice, and each edited one a text. */
  predicate AnswersComparison(preview: Preview, choices: map<string, Choice>, edited: map<string, Bytes>) {
    && Distinct(preview.files)
    && (forall name | name in preview.files :: name in choices && (name in preview.before || name in preview.target))
    && (forall name | name in preview.files && choices[name].Edited? :: name in edited)
  }

  /** What one file should become, and None when it should be absent. */
  function Wanted(preview: Preview, choices: map<string, Choice>, edited: map<string, Bytes>, name: string): Option<FileState>
    requires AnswersComparison(preview, choices, edited) && name in preview.files
  {
    match choices[name]
    case Server => Get(preview.before, name)
    case Edited =>
      var original := if name in preview.before then preview.before[name] else preview.target[name];
      Some(FileState(edited[name], original.mode))
    case Git =>
      if name !in preview.target then None
      else if name !in preview.before then Some(preview.target[name])
      else Some(FileState(preview.target[name].bytes, MixedMode(preview.before[name].mode, preview.target[name].mode)))
  }

  /** Executability is Git's, everything else stays. */
  function MixedMode(kept: bv9, tracked: bv9): (mode: bv9)
    ensures mode & OTHER_BITS == kept & OTHER_BITS && mode & EXECUTABLE == tracked & EXECUTABLE
  {
    (kept & OTHER_BITS) | (tracked & EXECUTABLE)
  }

  /**
   The chosen result changes only the files that were not left to the server, and keeps the
   read and write permissions of every file that was there.
   */
  method ResolveResult(preview: Preview, choices: map<string, Choice>, edited: map<string, Bytes>)
    returns (result: FileTree, changed: seq<string>)
    requires AnswersComparison(preview, choices, edited)
    ensures Distinct(changed) && forall name :: name in changed <==> name in preview.files && !choices[name].Server?
    ensures forall name | name !in changed :: Get(result, name) == Get(preview.before, name)
    ensures forall name | name in changed :: Get(result, name) == Wanted(preview, choices, edited, name)
    ensures forall name | name in changed :: KeepsPermissions(preview, choices, name, Get(result, name))
    ensures forall name :: name !in changed ==> (name in result <==> name in preview.before) && (name in result ==> result[name] == preview.before[name])
    ensures forall name | name in changed && choices[name].Edited? ::
              name in result && result[name].bytes == edited[name]
              && result[name].mode == if name in preview.before then preview.before[name].mode else preview.target[name].mode
    ensures forall name | name in changed && choices[name].Git? ::
              && (name in result <==> name in preview.target)
              && (name in result ==> result[name].bytes == preview.target[name].bytes)
              && (name in result && name !in preview.before ==> result[name].mode == preview.target[name].mode)
              && (name in result && name in preview.before ==>
                    result[name].mode & OTHER_BITS == preview.before[name].mode & OTHER_BITS
                    && result[name].mode & EXECUTABLE == preview.target[name].mode & EXECUTABLE)
    ensures InOrderOf(changed, preview.files)
  {
    result, changed := preview.before, [];
    assert ResolvedSoFar(preview, choices, edited, 0, result, changed);
    var index := 0;
    while index < |preview.files|
      invariant 0 <= index <= |preview.files|
      invariant ResolvedSoFar(preview, choices, edited, index, result, changed)
    {
      var name := preview.files[index];
      assert name in preview.files;
      ghost var before, earlier := result, changed;
      hide *;
      if !choices[name].Server? {
        result := ResolveOne(preview, choices, edited, name, result);
        changed := changed + [name];
      }
      ResolvedOneMore(preview, choices, edited, index, before, earlier, result, changed);
      index := index + 1;
    }
    ResolvedToTheEnd(preview, choices, edited, result, changed);
    hide *;
    ResolvedIsAsChosen(preview, choices, edited, result, changed);
  }

  /** One file gets the edited text, or becomes what Git has. */
  method ResolveOne(preview: Preview, choices: map<string, Choice>, edited: map<string, Bytes>, name: string, result: FileTree)
    returns (next: FileTree)
    requires AnswersComparison(preview, choices, edited) && name in preview.files && !choices[name].Server?
    ensures next == Set(result, name, Wanted(preview, choices, edited, name))
  {
    if choices[name].Edited? {
      var original := if name in preview.before then preview.before[name] else preview.target[name];
      return result[name := FileState(edited[name], original.mode)];
    }
    if name !in preview.target {
      return result - {name};
    }
    var target := preview.target[name];
    var mode := if name in preview.before then MixedMode(preview.before[name].mode, target.mode) else target.mode;
    return result[name := FileState(target.bytes, mode)];
  }

  /** The first files are dealt with, those left to the server as they were. */
  ghost predicate ResolvedSoFar(preview: Preview, choices: map<string, Choice>, edited: map<string, Bytes>, index: nat, result: FileTree, changed: seq<string>) {
    && AnswersComparison(preview, choices, edited) && index <= |preview.files|
    && Distinct(changed) && InOrderOf(changed, preview.files)
    && (forall name :: name in changed <==> name in preview.files[..index] && !choices[name].Server?)
    && (forall name | name !in changed :: Get(result, name) == Get(preview.before, name))
    && (forall name | name in changed :: name in preview.files && Get(result, name) == Wanted(preview, choices, edited, name))
  }

  lemma ResolvedOneMore(preview: Preview, choices: map<string, Choice>, edited: map<string, Bytes>, index: nat,
                        before: FileTree, earlier: seq<string>, result: FileTree, changed: seq<string>)
    requires ResolvedSoFar(preview, choices, edited, index, before, earlier) && index < |preview.files|
    requires var name := preview.files[index];
             && name in preview.files && name in choices && AnswersComparison(preview, choices, edited)
             && (choices[name].Server? ==> result == before && changed == earlier)
             && (!choices[name].Server? ==> result == Set(before, name, Wanted(preview, choices, edited, name)) && changed == earlier + [name])
    ensures ResolvedSoFar(preview, choices, edited, index + 1, result, changed)
  {
    var name := preview.files[index];
    assert preview.files[..index + 1] == preview.files[..index] + [name];
    if choices[name].Server? {
      hide InOrderOf, Wanted, Distinct;
    } else {
      hide ResolvedSoFar, InOrderOf, Wanted;
      ResolvedChosen(preview, choices, edited, index, before, earlier);
    }
  }

  lemma ResolvedChosen(preview: Preview, choices: map<string, Choice>, edited: map<string, Bytes>, index: nat, before: FileTree, earlier: seq<string>)
    requires ResolvedSoFar(preview, choices, edited, index, before, earlier) && index < |preview.files|
    requires var name := preview.files[index];
             name in preview.files && name in choices && !choices[name].Server? && AnswersComparison(preview, choices, edited)
    ensures var name := preview.files[index];
            ResolvedSoFar(preview, choices, edited, index + 1, Set(before, name, Wanted(preview, choices, edited, name)), earlier + [name])
  {
    var name := preview.files[index];
    var result, changed := Set(before, name, Wanted(preview, choices, edited, name)), earlier + [name];
    assert preview.files[..index + 1] == preview.files[..index] + [name];
    assert Distinct(preview.files) && name !in preview.files[..index];
    assert name !in earlier && Distinct(changed);
    InOrderAppend(earlier, preview.files, index);
    assert forall other | other != name :: Get(result, other) == Get(before, other);
    assert Get(result, name) == Wanted(preview, choices, edited, name);
    hide InOrderOf, Wanted, AnswersComparison, Distinct, Get, Set;
  }

  lemma ResolvedToTheEnd(preview: Preview, choices: map<string, Choice>, edited: map<string, Bytes>, result: FileTree, changed: seq<string>)
    requires ResolvedSoFar(preview, choices, edited, |preview.files|, result, changed)
    ensures Distinct(changed) && InOrderOf(changed, preview.files)
    ensures forall name :: name in changed <==> name in preview.files && name in choices && !choices[name].Server?
    ensures forall name | name !in changed :: Get(result, name) == Get(preview.before, name)
    ensures AnswersComparison(preview, choices, edited)
    ensures forall name | name in changed :: name in preview.files && Get(result, name) == Wanted(preview, choices, edited, name)
  {
    assert preview.files[..|preview.files|] == preview.files;
    hide InOrderOf, Wanted;
  }

  lemma ResolvedIsAsChosen(preview: Preview, choices: map<string, Choice>, edited: map<string, Bytes>, result: FileTree, changed: seq<string>)
    requires AnswersComparison(preview, choices, edited) && forall name | name in changed :: name in preview.files && !choices[name].Server?
    requires forall name | name !in changed :: Get(result, name) == Get(preview.before, name)
    requires forall name | name in changed :: Get(result, name) == Wanted(preview, choices, edited, name)
    ensures forall name | name in changed :: KeepsPermissions(preview, choices, name, Get(result, name))
    ensures forall name :: name !in changed ==> (name in result <==> name in preview.before) && (name in result ==> result[name] == preview.before[name])
    ensures forall name | name in changed && choices[name].Edited? ::
              name in edited && (name in preview.before || name in preview.target)
              && name in result && result[name].bytes == edited[name]
              && result[name].mode == if name in preview.before then preview.before[name].mode else preview.target[name].mode
    ensures forall name | name in changed && choices[name].Git? ::
              && (name in result <==> name in preview.target)
              && (name in result ==> result[name].bytes == preview.target[name].bytes)
              && (name in result && name !in preview.before ==> result[name].mode == preview.target[name].mode)
              && (name in result && name in preview.before ==>
                    result[name].mode & OTHER_BITS == preview.before[name].mode & OTHER_BITS
                    && result[name].mode & EXECUTABLE == preview.target[name].mode & EXECUTABLE)
  {
    forall name | name in changed
      ensures AsChosen(preview, choices[name], edited, name, Get(result, name))
      ensures KeepsPermissions(preview, choices, name, Get(result, name))
    {
      hide AnswersComparison, AsChosen, KeepsPermissions, Wanted;
      WantedIsAsChosen(preview, choices, edited, name);
      WantedKeepsPermissions(preview, choices, edited, name);
    }
    forall name | name !in changed ensures (name in result <==> name in preview.before) && (name in result ==> result[name] == preview.before[name]) {
      assert Get(result, name) == Get(preview.before, name);
    }
    forall name | name in changed ensures name in result ==> Get(result, name) == Some(result[name]) {
    }
    hide AnswersComparison, KeepsPermissions, Wanted;
  }

  /** One list goes through names in the order of another. */
  predicate InOrderOf(part: seq<string>, files: seq<string>) {
    forall a, b, i, j | 0 <= a < b < |part| && 0 <= i < |files| && 0 <= j < |files| && files[i] == part[a] && files[j] == part[b] :: i < j
  }

  lemma InOrderAppend(part: seq<string>, files: seq<string>, index: nat)
    requires Distinct(files) && index < |files| && InOrderOf(part, files) && forall name | name in part :: name in files[..index]
    ensures InOrderOf(part + [files[index]], files)
  {
    var all := part + [files[index]];
    forall a, b, i, j | 0 <= a < b < |all| && 0 <= i < |files| && 0 <= j < |files| && files[i] == all[a] && files[j] == all[b] ensures i < j {
      assert part[a] in part;
      if b == |part| {
        var k :| 0 <= k < index && files[..index][k] == part[a];
        assert files[k] == part[a];
      }
    }
  }

  /** What a choice other than the server's makes of one file. */
  predicate AsChosen(preview: Preview, choice: Choice, edited: map<string, Bytes>, name: string, file: Option<FileState>) {
    match choice
    case Server => true
    case Edited =>
      && name in edited && (name in preview.before || name in preview.target) && file.Some? && file.value.bytes == edited[name]
      && file.value.mode == if name in preview.before then preview.before[name].mode else preview.target[name].mode
    case Git =>
      && (file.Some? <==> name in preview.target)
      && (file.Some? ==> file.value.bytes == preview.target[name].bytes)
      && (file.Some? && name !in preview.before ==> file.value.mode == preview.target[name].mode)
      && (file.Some? && name in preview.before ==>
            file.value.mode & OTHER_BITS == preview.before[name].mode & OTHER_BITS
            && file.value.mode & EXECUTABLE == preview.target[name].mode & EXECUTABLE)
  }

  /** Case by case: the edited text, or Git's bytes or absence, and whose mode it is. */
  lemma WantedIsAsChosen(preview: Preview, choices: map<string, Choice>, edited: map<string, Bytes>, name: string)
    requires AnswersComparison(preview, choices, edited) && name in preview.files
    ensures AsChosen(preview, choices[name], edited, name, Wanted(preview, choices, edited, name))
  {
  }

  /** Read and write permissions stay those of the directory, executability comes from Git. */
  predicate KeepsPermissions(preview: Preview, choices: map<string, Choice>, name: string, file: Option<FileState>) {
    && (file.Some? && name in preview.before ==> file.value.mode & OTHER_BITS == preview.before[name].mode & OTHER_BITS)
    && (file.Some? && name in choices && choices[name].Git? ==>
          && name in preview.target && file.value.bytes == preview.target[name].bytes
          && file.value.mode & EXECUTABLE == preview.target[name].mode & EXECUTABLE)
  }

  lemma WantedKeepsPermissions(preview: Preview, choices: map<string, Choice>, edited: map<string, Bytes>, name: string)
    requires AnswersComparison(preview, choices, edited) && name in preview.files
    ensures KeepsPermissions(preview, choices, name, Wanted(preview, choices, edited, name))
  {
  }
}
