/** The project-root computation of the helper module, on the working directory
    passed in as text. */
module FileHelper {
  import opened Wrappers
  import opened Strings

  const ProjectDir: string := "ROSE"

  /** `get_path`: the working directory cut after its first `ROSE` component;
      `list.index` raises when there is none. */
  function GetPath(cwd: string): (r: Result<string>)
    ensures r.Failure? <==> ProjectDir !in Split(cwd, '/')
    ensures r.Success? ==> r.value <= cwd
    ensures r.Success? ==>
      Split(r.value, '/') == Split(cwd, '/')[..FirstIndex(Split(cwd, '/'), ProjectDir) + 1]
    ensures r.Success? ==>
      var parts := Split(r.value, '/');
      Last(parts) == ProjectDir && ProjectDir !in parts[..|parts| - 1]
  {
    var parts := Split(cwd, '/');
    if ProjectDir !in parts then Failure("ValueError: 'ROSE' is not in list")
    else
      var idx := FirstIndex(parts, ProjectDir);
      var pre := parts[..idx + 1];
      var path := Join(pre, '/');
      JoinSplit(cwd, '/');
      JoinPrefix(parts, idx + 1, '/');
      assert forall i :: 0 <= i < |pre| ==> pre[i] == parts[i];
      SplitJoin(pre, '/');
      assert pre[..idx] == parts[..idx];
      assert Last(pre) == ProjectDir;
      Success(path)
  }

  /** When the only `ROSE` component is the last one, the project root is the
      working directory itself. */
  lemma GetPathAtRoot(cwd: string)
    requires var parts := Split(cwd, '/');
      Last(parts) == ProjectDir && ProjectDir !in parts[..|parts| - 1]
    ensures GetPath(cwd) == Success(cwd)
  {
    var parts := Split(cwd, '/');
    var n := |parts|;
    assert parts[n - 1] in parts;
    forall k | 0 <= k < n - 1
      ensures parts[k] != ProjectDir
    {
      assert parts[..n - 1][k] == parts[k];
    }
    assert FirstIndex(parts, ProjectDir) == n - 1;
    assert parts[..n] == parts;
    JoinSplit(cwd, '/');
  }
}
