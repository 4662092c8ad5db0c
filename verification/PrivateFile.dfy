/** Replacing a state file (`write_private_file` in src/util.rs), call by call, with a failure of any
    call and a crash between any two. */
module PrivateFile {
  import opened Text

  /** A file: its bytes, and whether they are on stable storage. */
  datatype Node = Node(data: string, safe: bool)

  type Files = map<string, Node>

  /** Which calls succeed; `written` is how many bytes can be written. */
  datatype Faults = Faults(create: bool, written: nat, sync: bool, rename: bool, remove: bool)

  function TmpName(path: string, random: nat): string {
    path + (".tmp" + Decimal(random))
  }

  lemma TmpIsOther(path: string, random: nat)
    ensures TmpName(path, random) != path
  {
    hide Decimal;
    assert |TmpName(path, random)| > |path|;
  }

  /** Nothing but `tmp` differs from `before`, except that `path` may hold all of `data`, safely. */
  ghost predicate OldOrNew(before: Files, now: Files, path: string, tmp: string, data: string) {
    now - {tmp} == before - {tmp} || now - {tmp} == (before - {tmp})[path := Node(data, true)]
  }

  /** One system call on the temporary file. */
  ghost predicate OneCall(a: Files, b: Files, path: string, tmp: string) {
    || (tmp !in a && b == a[tmp := Node("", false)])
    || (tmp in a && exists c :: b == Appended(a, tmp, c))
    || (tmp in a && b == a[tmp := Node(a[tmp].data, true)])
    || (tmp in a && b == (a - {tmp})[path := a[tmp]])
    || b == a - {tmp}
  }

  function Appended(a: Files, tmp: string, c: char): Files
    requires tmp in a
  {
    a[tmp := Node(a[tmp].data + [c], false)]
  }

  /** The states from `before` to `now`, one system call apart; in all of them `path` is as it was or
      complete. */
  ghost predicate IsTrace(before: Files, trace: seq<Files>, now: Files, path: string, tmp: string, data: string) {
    && trace != [] && trace[0] == before && trace[|trace| - 1] == now
    && (forall i :: 0 <= i < |trace| - 1 ==> OneCall(trace[i], trace[i + 1], path, tmp))
    && (forall i :: 0 <= i < |trace| ==> OldOrNew(before, trace[i], path, tmp, data))
  }

  lemma TraceSnoc(before: Files, trace: seq<Files>, now: Files, next: Files, path: string, tmp: string, data: string)
    requires IsTrace(before, trace, now, path, tmp, data)
    requires OneCall(now, next, path, tmp) && OldOrNew(before, next, path, tmp, data)
    ensures IsTrace(before, trace + [next], next, path, tmp, data)
  {
    hide OneCall, OldOrNew;
  }

  class Directory {
    var files: Files

    constructor (files: Files)
      ensures this.files == files
    {
      this.files := files;
    }

    /** Writes to the new file `tmp`, byte by byte, up to the first failure. */
    method WriteAll(path: string, tmp: string, data: string, written: nat, ghost before: Files, ghost start: seq<Files>)
        returns (ok: bool, ghost trace: seq<Files>)
      requires tmp in files && files - {tmp} == before - {tmp} && files[tmp] == Node("", false)
      requires IsTrace(before, start, files, path, tmp, data)
      modifies this
      ensures tmp in files && files - {tmp} == before - {tmp}
      ensures ok == (written >= |data|) && (ok ==> files[tmp] == Node(data, false))
      ensures IsTrace(before, trace, files, path, tmp, data)
    {
      hide IsTrace;
      trace := start;
      var k := 0;
      while k < |data| && k < written
        invariant k <= |data| && k <= written && tmp in files
        invariant files - {tmp} == before - {tmp} && files[tmp] == Node(data[..k], false)
        invariant IsTrace(before, trace, files, path, tmp, data)
      {
        ghost var next := Appended(files, tmp, data[k]);
        assert data[..k + 1] == data[..k] + [data[k]];
        Touched(files, tmp, Node(data[..k + 1], false));
        TraceSnoc(before, trace, files, next, path, tmp, data);
        files := files[tmp := Node(data[..k + 1], false)];
        trace := trace + [next];
        k := k + 1;
      }
      assert k == |data| ==> data[..k] == data;
      ok := k == |data|;
    }

    /** Creates, writes and syncs a temporary file and renames it; `trace` are the states from the
        first call to the last. */
    method Steps(path: string, tmp: string, data: string, f: Faults) returns (ok: bool, ghost trace: seq<Files>)
      requires tmp != path
      modifies this
      ensures ok == (tmp !in old(files) && f.create && f.written >= |data| && f.sync && f.rename)
      ensures ok ==> files == old(files)[path := Node(data, true)]
      ensures !ok ==> files - {tmp} == old(files) - {tmp}
      ensures IsTrace(old(files), trace, files, path, tmp, data)
    {
      ghost var before := files;
      trace := [files];
      if tmp in files || !f.create {
        return false, trace;
      }
      hide IsTrace;
      Touched(files, tmp, Node("", false));
      TraceSnoc(before, trace, files, files[tmp := Node("", false)], path, tmp, data);
      files := files[tmp := Node("", false)];
      trace := trace + [files];
      var wrote;
      wrote, trace := WriteAll(path, tmp, data, f.written, before, trace);
      if !wrote || !f.sync {
        return false, trace;
      }
      Touched(files, tmp, Node(data, true));
      TraceSnoc(before, trace, files, files[tmp := Node(data, true)], path, tmp, data);
      files := files[tmp := Node(data, true)];
      trace := trace + [files];
      if !f.rename {
        return false, trace;
      }
      Renamed(before, files, path, tmp, data);
      TraceSnoc(before, trace, files, (files - {tmp})[path := files[tmp]], path, tmp, data);
      files := (files - {tmp})[path := files[tmp]];
      trace := trace + [files];
      ok := true;
    }

    /** The whole call. On success only `path` has changed, and holds the new bytes safely; on failure
        nothing has, apart from the temporary file, which is gone when it can be removed. In between
        `path` is always as it was or complete. */
    method WritePrivateFile(path: string, data: string, random: nat, f: Faults) returns (ok: bool, ghost trace: seq<Files>)
      modifies this
      ensures var tmp := TmpName(path, random);
              && ok == (tmp !in old(files) && f.create && f.written >= |data| && f.sync && f.rename)
              && (ok ==> files == old(files)[path := Node(data, true)])
              && (!ok ==> files - {tmp} == old(files) - {tmp} && (f.remove ==> tmp !in files))
              && IsTrace(old(files), trace, files, path, tmp, data)
    {
      TmpIsOther(path, random);
      var tmp := TmpName(path, random);
      hide TmpName;
      ghost var before := files;
      ok, trace := Steps(path, tmp, data, f);
      if !ok && f.remove {
        hide IsTrace;
        assert files - {tmp} - {tmp} == files - {tmp};
        TraceSnoc(before, trace, files, files - {tmp}, path, tmp, data);
        files := files - {tmp};
        trace := trace + [files];
      }
    }
  }

  lemma Touched(files: Files, tmp: string, node: Node)
    ensures files[tmp := node] - {tmp} == files - {tmp}
  {
  }

  lemma Renamed(before: Files, files: Files, path: string, tmp: string, data: string)
    requires tmp != path && tmp in files && tmp !in before && files - {tmp} == before - {tmp}
    requires files[tmp] == Node(data, true)
    ensures (files - {tmp})[path := files[tmp]] == before[path := Node(data, true)]
    ensures before[path := Node(data, true)] - {tmp} == (before - {tmp})[path := Node(data, true)]
  {
    assert before - {tmp} == before;
  }

  // ---------------------------------------------------------------- crashes

  /** A crash keeps the directory and what is safe; the bytes of other files may be anything. */
  ghost predicate Crash(before: Files, after: Files) {
    after.Keys == before.Keys && forall p :: p in before && before[p].safe ==> after[p] == before[p]
  }

  /** A crash at any point leaves the file as it was before the call or with all the new bytes. */
  lemma CrashKeepsFile(before: Files, trace: seq<Files>, now: Files, i: nat, after: Files,
                       path: string, random: nat, data: string)
    requires path in before ==> before[path].safe
    requires IsTrace(before, trace, now, path, TmpName(path, random), data) && i < |trace| && Crash(trace[i], after)
    ensures (path in after <==> path in trace[i])
    ensures path in after ==> after[path] == Node(data, true) || (path in before && after[path] == before[path])
    ensures path !in after ==> path !in before
  {
    var tmp, at := TmpName(path, random), trace[i];
    TmpIsOther(path, random);
    assert path in at <==> path in at - {tmp};
    assert path in before <==> path in before - {tmp};
    assert OldOrNew(before, at, path, tmp, data);
    if path in at {
      assert at[path] == (at - {tmp})[path];
    }
    if path in before {
      assert before[path] == (before - {tmp})[path];
    }
  }
}
