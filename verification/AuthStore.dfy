/** The session store and its state file (src/auth.rs). Whether a write of the file succeeds is a
    parameter; a write replaces the file as a whole or not at all. */
module AuthStore {
  import opened Text
  import opened Crypto
  import opened SessionMap

  /** The state file: absent, unreadable, or holding a secret and sessions. */
  datatype File = Missing | Unreadable | Saved(secret: string, sessions: Sessions)

  datatype Memory = Memory(secret: string, sessions: Sessions)

  class Disk {
    var file: File

    constructor (file: File)
      ensures this.file == file
    {
      this.file := file;
    }

    /** `write_private_file`: on success the file is replaced. */
    method Replace(next: File, writes: bool) returns (ok: bool)
      modifies this
      ensures ok == writes && file == if writes then next else old(file)
    {
      if writes {
        file := next;
      }
      ok := writes;
    }
  }

  // ---------------------------------------------------------------- what the operations do

  /** `Store::open` on a state file: the store, unless it fails, and the file afterwards. `random`
      is a fresh secret. */
  function OpenFile(file: File, random: string, writes: bool): (Option<Memory>, File) {
    match file
    case Unreadable => (None, file)
    case Saved(secret, sessions) =>
      if secret != "" then (Some(Memory(secret, sessions)), file) else Create(file, random, sessions, writes)
    case Missing => Create(file, random, map[], writes)
  }

  function Create(file: File, random: string, sessions: Sessions, writes: bool): (Option<Memory>, File) {
    if writes then (Some(Memory(random, sessions)), Saved(random, sessions)) else (None, file)
  }

  function AfterAdd(m: Memory, token: string, session: Session): Memory {
    if token == "" then m else m.(sessions := m.sessions[token := session])
  }

  function AfterRemove(m: Memory, token: string): Memory {
    m.(sessions := m.sessions - {token})
  }

  class Store {
    const disk: Disk?
    const secret: string
    var sessions: Sessions

    ghost function Contents(): Memory
      reads this
    {
      Memory(secret, sessions)
    }

    constructor (disk: Disk?, secret: string, sessions: Sessions)
      ensures this.disk == disk && Contents() == Memory(secret, sessions)
    {
      this.disk, this.secret, this.sessions := disk, secret, sessions;
    }

    /** Opens the state file, creating it when missing; without a file everything is in memory. */
    static method Open(disk: Disk?, random: string, writes: bool) returns (r: Store?)
      modifies if disk == null then {} else {disk}
      ensures disk == null ==> r != null && r.Contents() == Memory(random, map[])
      ensures disk != null ==>
                var (m, file) := OpenFile(old(disk.file), random, writes);
                disk.file == file && (r != null) == m.Some? && (r != null ==> r.disk == disk && r.Contents() == m.value)
    {
      var secret, sessions := "", map[];
      if disk != null {
        match disk.file
        case Missing =>
        case Unreadable => return null;
        case Saved(s, m) => secret, sessions := s, m;
      }
      var isNew := secret == "";
      if isNew {
        secret := random;
      }
      r := new Store(disk, secret, sessions);
      if isNew {
        var ok := r.Save(writes);
        if !ok {
          r := null;
        }
      }
    }

    method Save(writes: bool) returns (ok: bool)
      modifies if disk == null then {} else {disk}
      ensures disk == null ==> ok
      ensures disk != null ==> ok == writes && disk.file == if writes then Saved(secret, sessions) else old(disk.file)
    {
      if disk == null {
        return true;
      }
      ok := disk.Replace(Saved(secret, sessions), writes);
    }

    /** Adds a session. When the save fails the session stays in memory and an error is returned. */
    method AddSession(token: string, session: Session, writes: bool) returns (ok: bool)
      modifies this
      modifies if disk == null then {} else {disk}
      ensures Contents() == AfterAdd(old(Contents()), token, session)
      ensures ok == (token != "" && (disk == null || writes))
      ensures disk != null ==>
                disk.file == if token != "" && writes then Saved(secret, sessions) else old(disk.file)
    {
      if token == "" {
        return false;
      }
      sessions := sessions[token := session];
      ok := Save(writes);
    }

    method Lookup(token: string) returns (r: Option<Session>)
      ensures r == if token != "" && token in sessions then Some(sessions[token]) else None
    {
      if token == "" {
        return None;
      }
      if token in sessions {
        return Some(sessions[token]);
      }
      return None;
    }

    /** Removes a session; the file is written only when there was one. */
    method RemoveSession(token: string, writes: bool) returns (ok: bool)
      modifies this
      modifies if disk == null then {} else {disk}
      ensures Contents() == AfterRemove(old(Contents()), token)
      ensures ok == (token !in old(sessions) || disk == null || writes)
      ensures disk != null ==>
                disk.file == if token in old(sessions) && writes then Saved(secret, sessions) else old(disk.file)
    {
      if token !in sessions {
        assert sessions - {token} == sessions;
        return true;
      }
      sessions := sessions - {token};
      ok := Save(writes);
    }
  }

  // ---------------------------------------------------------------- runs

  datatype Operation =
    | Start(random: string, writes: bool)
    | Stop
    | Insert(token: string, session: Session, writes: bool)
    | Drop(token: string, writes: bool)

  /** Memory of the running process, the file, and the contents of the last successful save. */
  datatype World = World(memory: Option<Memory>, file: File, saved: Option<Memory>)

  predicate MayRun(w: World, op: Operation) {
    match op
    case Start(random, _) => w.memory.None? && random != ""
    case _ => w.memory.Some?
  }

  /** A save of `m` that succeeds when `writes`. */
  function SaveIn(w: World, m: Memory, writes: bool): World {
    if writes then World(Some(m), Saved(m.secret, m.sessions), Some(m)) else w.(memory := Some(m))
  }

  function Run(w: World, op: Operation): World
    requires MayRun(w, op)
  {
    match op
    case Start(random, writes) =>
      var (m, file) := OpenFile(w.file, random, writes);
      World(m, file, if file == w.file then w.saved else m)
    case Stop => w.(memory := None)
    case Insert(token, session, writes) =>
      var m := w.memory.value;
      if token == "" then w else SaveIn(w, AfterAdd(m, token, session), writes)
    case Drop(token, writes) =>
      var m := w.memory.value;
      if token !in m.sessions then w else SaveIn(w, AfterRemove(m, token), writes)
  }

  /** The file holds a secret. */
  predicate HasSecret(file: File) {
    file.Saved? && file.secret != ""
  }

  /** The file is the last successful save, or `first` when there was none, and a process uses the
      secret of the file. */
  ghost predicate FileIsLastSave(first: File, w: World) {
    && w.file == (match w.saved case None => first case Some(m) => Saved(m.secret, m.sessions))
    && (w.saved.Some? ==> w.saved.value.secret != "")
    && (w.memory.Some? ==> HasSecret(w.file) && w.memory.value.secret == w.file.secret)
  }

  /** Every operation keeps the file equal to the last successful save, and once the file holds a
      secret it never changes. */
  lemma OperationKeepsFile(first: File, w: World, op: Operation)
    requires FileIsLastSave(first, w) && MayRun(w, op)
    ensures FileIsLastSave(first, Run(w, op))
    ensures HasSecret(w.file) ==> HasSecret(Run(w, op).file) && Run(w, op).file.secret == w.file.secret
  {
  }

  /** A start succeeds exactly when the file can be read and either holds a secret or can be written;
      it then restores the sessions of the file, and its secret if it holds one. */
  lemma StartRestores(first: File, w: World, random: string, writes: bool)
    requires FileIsLastSave(first, w) && MayRun(w, Start(random, writes))
    ensures var t := Run(w, Start(random, writes));
            && (t.memory.Some? <==> !w.file.Unreadable? && (HasSecret(w.file) || writes))
            && (t.memory.Some? ==>
                  && t.memory.value.sessions == (if w.file.Saved? then w.file.sessions else map[])
                  && (HasSecret(w.file) ==> t.memory.value.secret == w.file.secret && t.file == w.file)
                  && (!HasSecret(w.file) ==> t.memory.value.secret == random && t.saved == t.memory))
  {
  }

  /** A run of the store from any file. */
  ghost predicate IsHistory(ws: seq<World>, ops: seq<Operation>) {
    && |ws| == |ops| + 1 && ws[0].memory.None? && ws[0].saved.None?
    && forall i :: 0 <= i < |ops| ==> MayRun(ws[i], ops[i]) && ws[i + 1] == Run(ws[i], ops[i])
  }

  lemma {:induction false} HistoryKeepsFile(ws: seq<World>, ops: seq<Operation>, n: nat)
    requires IsHistory(ws, ops) && n < |ws|
    ensures FileIsLastSave(ws[0].file, ws[n])
  {
    if n > 0 {
      HistoryKeepsFile(ws, ops, n - 1);
      OperationKeepsFile(ws[0].file, ws[n - 1], ops[n - 1]);
      assert ws[n] == Run(ws[n - 1], ops[n - 1]);
    }
  }

  lemma {:induction false} SecretStays(ws: seq<World>, ops: seq<Operation>, i: nat, j: nat)
    requires IsHistory(ws, ops) && i <= j < |ws| && HasSecret(ws[i].file)
    ensures HasSecret(ws[j].file) && ws[j].file.secret == ws[i].file.secret
    decreases j - i
  {
    if i < j {
      SecretStays(ws, ops, i, j - 1);
      HistoryKeepsFile(ws, ops, j - 1);
      OperationKeepsFile(ws[0].file, ws[j - 1], ops[j - 1]);
      assert ws[j] == Run(ws[j - 1], ops[j - 1]);
    }
  }

  /** Over any run of adds, removes, failed saves and restarts, from any file, a signature issued by
      any process verifies in every later one. */
  lemma SignaturesSurvive(c: Suite, ws: seq<World>, ops: seq<Operation>, i: nat, j: nat, parts: seq<string>)
    requires Sound(c) && IsHistory(ws, ops) && i <= j < |ws| && ws[i].memory.Some? && ws[j].memory.Some?
    ensures ws[j].memory.value.secret == ws[i].memory.value.secret
    ensures Verify(c, ws[j].memory.value.secret, Sign(c, ws[i].memory.value.secret, parts), parts)
  {
    HistoryKeepsFile(ws, ops, i);
    HistoryKeepsFile(ws, ops, j);
    SecretStays(ws, ops, i, j);
    SignedVerifies(c, ws[i].memory.value.secret, parts);
  }

  lemma {:induction false} UnreadableStays(ws: seq<World>, ops: seq<Operation>, n: nat)
    requires IsHistory(ws, ops) && n < |ws|
    ensures ws[n].file.Unreadable? <==> ws[0].file.Unreadable?
  {
    if n > 0 {
      UnreadableStays(ws, ops, n - 1);
      HistoryKeepsFile(ws, ops, n - 1);
      assert ws[n] == Run(ws[n - 1], ops[n - 1]);
    }
  }

  /** Which starts of a run succeed, and what they restore: none when the first file is unreadable;
      otherwise every start after a successful save or on a first file with a secret, and any other
      exactly when its file can be written. */
  lemma ReopenRestores(ws: seq<World>, ops: seq<Operation>, n: nat)
    requires IsHistory(ws, ops) && n < |ops| && ops[n].Start?
    ensures ws[n + 1].memory.Some? <==>
            !ws[0].file.Unreadable? && (ws[n].saved.Some? || HasSecret(ws[0].file) || ops[n].writes)
    ensures ws[n].saved.Some? ==> ws[n + 1].memory == ws[n].saved && ws[n + 1].file == ws[n].file
  {
    HistoryKeepsFile(ws, ops, n);
    UnreadableStays(ws, ops, n);
    StartRestores(ws[0].file, ws[n], ops[n].random, ops[n].writes);
    if HasSecret(ws[0].file) {
      SecretStays(ws, ops, 0, n);
    }
    assert ws[n + 1] == Run(ws[n], ops[n]);
  }
}
