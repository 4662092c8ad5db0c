/** The state file of the session store on a file system: the calls of `write_private_file` are the
    one replacement that `AuthStore` speaks of, also when the process dies between two of them. */
module StateFile {
  import opened Text
  import opened PrivateFile
  import opened AuthStore

  /** How the store's file is written as bytes, and what bytes are read as. */
  datatype Codec = Codec(encode: File -> string, decode: string -> File)

  predicate Reads(c: Codec, file: File) {
    file.Saved? && c.decode(c.encode(file)) == file
  }

  /** The store's file on a file system. */
  function View(files: Files, path: string, c: Codec): File {
    if path in files then c.decode(files[path].data) else Missing
  }

  lemma SameView(a: Files, b: Files, path: string, tmp: string, c: Codec)
    requires tmp != path && a - {tmp} == b - {tmp}
    ensures View(a, path, c) == View(b, path, c)
  {
    assert path in a <==> path in a - {tmp};
    assert path in b <==> path in b - {tmp};
    if path in a {
      assert a[path] == (a - {tmp})[path] && b[path] == (b - {tmp})[path];
    }
  }

  /** Saving on the file system, with any calls failing, is `Disk.Replace` with the call's own outcome;
      the file is safe afterwards if it was before. */
  method ReplaceFile(dir: Directory, path: string, next: File, c: Codec, random: nat, f: Faults)
      returns (ok: bool, ghost trace: seq<Files>)
    requires Reads(c, next)
    modifies dir
    ensures View(dir.files, path, c) == if ok then next else old(View(dir.files, path, c))
    ensures path in dir.files ==> dir.files[path].safe || old(path in dir.files && !dir.files[path].safe)
    ensures IsTrace(old(dir.files), trace, dir.files, path, TmpName(path, random), c.encode(next))
  {
    ghost var before := dir.files;
    ghost var tmp := TmpName(path, random);
    TmpIsOther(path, random);
    hide TmpName, IsTrace;
    ok, trace := dir.WritePrivateFile(path, c.encode(next), random, f);
    if !ok {
      SameView(dir.files, before, path, tmp, c);
      assert path in dir.files <==> path in dir.files - {tmp};
      assert path in before <==> path in before - {tmp};
      assert path in before ==> before[path] == (before - {tmp})[path];
      assert path in dir.files ==> dir.files[path] == (dir.files - {tmp})[path];
    }
  }

  /** A crash between any two calls of a save leaves the old file or the new one. */
  lemma CrashInFile(before: Files, trace: seq<Files>, now: Files, i: nat, after: Files, path: string, random: nat,
                    next: File, c: Codec)
    requires Reads(c, next) && (path in before ==> before[path].safe)
    requires IsTrace(before, trace, now, path, TmpName(path, random), c.encode(next)) && i < |trace| && Crash(trace[i], after)
    ensures View(after, path, c) == View(before, path, c) || View(after, path, c) == next
  {
    CrashKeepsFile(before, trace, now, i, after, path, random, c.encode(next));
    hide IsTrace, Crash, TmpName;
  }

  /** For the store, a crash inside a save of `m` is a save that succeeded or failed, and then a stop. */
  lemma CrashInSave(w: World, m: Memory, before: Files, trace: seq<Files>, now: Files, i: nat, after: Files,
                    path: string, random: nat, c: Codec)
    requires w.memory.Some? && w.file == View(before, path, c)
    requires var next := Saved(m.secret, m.sessions);
             && Reads(c, next) && (path in before ==> before[path].safe)
             && IsTrace(before, trace, now, path, TmpName(path, random), c.encode(next))
             && i < |trace| && Crash(trace[i], after)
    ensures exists writes ::
              var end := Run(SaveIn(w, m, writes), Stop);
              end.memory.None? && end.file == View(after, path, c)
  {
    var next := Saved(m.secret, m.sessions);
    CrashInFile(before, trace, now, i, after, path, random, next, c);
    hide IsTrace, Crash, TmpName, View;
    var yes, no := Run(SaveIn(w, m, true), Stop), Run(SaveIn(w, m, false), Stop);
    assert yes.memory.None? && yes.file == next && no.memory.None? && no.file == w.file;
  }
}
