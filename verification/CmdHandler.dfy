/**
 `cmd_handler`: rule-set files are installed, deleted and updated on request, and installed again at startup. Each call
 on the file system or on the object store of rules takes its outcome from the environment, so that any of them may
 fail; the XML parser is the environment's, too.
 */
module CmdHandler {
  import opened Prelude

  /** The files that the server reads and writes, by folder. */
  datatype Path = InstalledFile(id: string) | DeletingFile(id: string) | InstallingFile(name: string) | Nowhere

  const BACKUP := InstallingFile("backup.xml")

  datatype Document = Document(id: string, revision: string, rules: seq<string>)

  datatype Op = CopyFile | RemoveFile | RenameFile | CreateRule | SetTargets | DeleteRule | RollbackRule

  datatype Outcome = Works | Fails | FailsHalfway

  datatype Env = Env(parse: string -> Option<Document>, outcome: (Op, nat) -> Outcome, list: set<string> -> seq<string>)
  {
    /** The schema forbids empty identifiers; listings are complete and without repetition. */
    ghost predicate Valid() {
      && (forall text :: parse(text).Some? ==> parse(text).value.id != "")
      && (forall names :: NoDup(list(names)) && forall name :: name in list(names) <==> name in names)
    }

    ghost predicate AllWork() { forall op, n :: outcome(op, n) == Works }

    ghost predicate RollbacksWork() { forall n :: outcome(RollbackRule, n) == Works }
  }

  datatype Entry = Entry(id: string, revision: string)

  /** The installed list, the rules with their owning rule set, the files, and how many calls were made. */
  datatype Store = Store(installed: seq<Entry>, rules: map<string, string>, files: map<Path, string>, calls: nat)

  datatype Done = Done(s: Store, ok: bool)

  datatype Status = Ok | ParseFailed | Duplicated | RuleFailed | FileSystemFailed | Undefined

  datatype Reply = Reply(s: Store, status: Status)

  predicate NoDup(names: seq<string>) {
    names == [] || (names[0] !in names[1..] && NoDup(names[1..]))
  }

  // ---------- calls on the file system and on the object store ----------

  function Call(env: Env, s: Store, op: Op): Done {
    Done(s.(calls := s.calls + 1), env.outcome(op, s.calls) == Works)
  }

  /** The target is not truncated: what is longer there stays. */
  function Overwritten(text: string, prior: string): string {
    if |prior| > |text| then text + prior[|text|..] else text
  }

  function Copy(env: Env, s: Store, from: Path, to: Path): Done {
    var c := Call(env, s, CopyFile);
    var prior := if to in s.files then s.files[to] else "";
    if from !in s.files then Done(c.s, false)
    else if c.ok then Done(c.s.(files := s.files[to := Overwritten(s.files[from], prior)]), true)
    else if env.outcome(CopyFile, s.calls) == FailsHalfway then Done(c.s.(files := s.files[to := prior]), false)
    else c
  }

  function Remove(env: Env, s: Store, path: Path): Done {
    var c := Call(env, s, RemoveFile);
    if path in s.files && c.ok then Done(c.s.(files := s.files - {path}), true) else Done(c.s, false)
  }

  function Rename(env: Env, s: Store, from: Path, to: Path): Done {
    var c := Call(env, s, RenameFile);
    if from in s.files && c.ok then Done(c.s.(files := (s.files - {from})[to := s.files[from]]), true)
    else Done(c.s, false)
  }

  /** With a change of owner a move is a copy and a removal. */
  function Move(env: Env, s: Store, from: Path, to: Path, changeUser: bool): Done {
    if !changeUser then Rename(env, s, from, to)
    else
      var c := Copy(env, s, from, to);
      if c.ok then Remove(env, c.s, from) else c
  }

  function DeleteObject(env: Env, s: Store, rule: string, op: Op): Done {
    var c := Call(env, s, op);
    if c.ok then Done(c.s.(rules := s.rules - {rule}), true) else c
  }

  // ---------- the handlers ----------

  /** The identifier and revision of a file, and all its rules. */
  function Info(env: Env, s: Store, path: Path): Option<Document> {
    if path in s.files && path != Nowhere then env.parse(s.files[path]) else None
  }

  predicate HasId(installed: seq<Entry>, id: string) { exists i | 0 <= i < |installed| :: installed[i].id == id }

  function Lookup(installed: seq<Entry>, id: string): Option<Entry> {
    if installed == [] then None
    else if installed[0].id == id then Some(installed[0])
    else Lookup(installed[1..], id)
  }

  function Erase(installed: seq<Entry>, id: string): seq<Entry> {
    if installed == [] then []
    else if installed[0].id == id then installed[1..]
    else [installed[0]] + Erase(installed[1..], id)
  }

  /** Deletes the listed rules that belong to the rule set, up to the first failure if told so. */
  function DeleteRules(env: Env, s: Store, todo: seq<string>, id: string, op: Op, stop: bool): Done
    decreases |todo|
  {
    if todo == [] then Done(s, true)
    else if todo[0] in s.rules && s.rules[todo[0]] == id then
      var d := DeleteObject(env, s, todo[0], op);
      if !d.ok && stop then d else DeleteRules(env, d.s, todo[1..], id, op, stop)
    else DeleteRules(env, s, todo[1..], id, op, stop)
  }

  function Rollback(env: Env, s: Store, id: string): Store {
    DeleteRules(env, s, env.list(s.rules.Keys), id, RollbackRule, false).s
  }

  function Discard(env: Env, s: Store, path: Path, notStartup: bool): Store {
    if notStartup then Remove(env, s, path).s else s
  }

  /** Creates one rule of a document; at startup it may exist already. */
  function ParseRule(env: Env, s: Store, id: string, rule: string, seen: set<string>, errorOnDuplicate: bool): Done {
    var c := Call(env, s, CreateRule);
    if !c.ok || (rule in s.rules && errorOnDuplicate) then Done(c.s, false)
    else
      var t := if rule in s.rules then c.s else c.s.(rules := s.rules[rule := ""]);
      if rule in seen then Done(t, false)
      else
        var u := Call(env, t, SetTargets);
        if !u.ok then Done(DeleteObject(env, u.s, rule, DeleteRule).s, false)
        else Done(u.s.(rules := u.s.rules[rule := id]), true)
  }

  function ParseRules(env: Env, s: Store, id: string, todo: seq<string>, seen: set<string>,
                      errorOnDuplicate: bool): Done
    decreases |todo|
  {
    if todo == [] then Done(s, true)
    else
      var d := ParseRule(env, s, id, todo[0], seen, errorOnDuplicate);
      if !d.ok then d else ParseRules(env, d.s, id, todo[1..], seen + {todo[0]}, errorOnDuplicate)
  }

  function Install(env: Env, s: Store, path: Path, notStartup: bool): Reply {
    match Info(env, s, path)
    case None => Reply(Discard(env, s, path, notStartup), ParseFailed)
    case Some(doc) =>
      if HasId(s.installed, doc.id) then Reply(Discard(env, s, path, notStartup), Duplicated)
      else
        var p := ParseRules(env, s, doc.id, doc.rules, {}, notStartup);
        if !p.ok then Reply(Discard(env, Rollback(env, p.s, doc.id), path, notStartup), ParseFailed)
        else
          var m := Move(env, p.s, path, InstalledFile(doc.id), notStartup);
          if !m.ok then Reply(Rollback(env, Discard(env, m.s, path, notStartup), doc.id), FileSystemFailed)
          else Reply(m.s.(installed := m.s.installed + [Entry(doc.id, doc.revision)]), Ok)
  }

  function Delete(env: Env, s: Store, id: string): Reply {
    if !HasId(s.installed, id) then Reply(s, Undefined)
    else
      var d := DeleteRules(env, s, env.list(s.rules.Keys), id, DeleteRule, true);
      if !d.ok then Reply(d.s, RuleFailed)
      else
        var r := Remove(env, d.s.(installed := Erase(d.s.installed, id)), InstalledFile(id));
        if !r.ok then Reply(r.s, FileSystemFailed)
        else
          var q := Remove(env, r.s, DeletingFile(id));
          Reply(q.s, if q.ok then Ok else FileSystemFailed)
  }

  /** How far an update got. */
  datatype Stage = Rejected | NotDeleted | Erased | NotInstalled(restored: bool) | Replaced

  datatype Updated = Updated(s: Store, status: Status, stage: Stage)

  /** An update is a deletion and an installation, with a backup to go back to. */
  function Update(env: Env, s: Store, path: Path): Updated {
    match Info(env, s, path)
    case None => Updated(Discard(env, s, path, true), ParseFailed, Rejected)
    case Some(doc) =>
      var prior := Lookup(s.installed, doc.id);
      if prior == Some(Entry(doc.id, doc.revision)) then Updated(Discard(env, s, path, true), Duplicated, Rejected)
      else
        var name := if prior.Some? then doc.id else "";
        var b := Copy(env, s, InstalledFile(name), BACKUP);
        var backup := if b.ok then BACKUP else Nowhere;
        if name == "" then UpdateInstall(env, b.s, path, backup)
        else
          var c := Copy(env, b.s, InstalledFile(name), DeletingFile(name));
          if !c.ok then Updated(c.s, FileSystemFailed, NotDeleted)
          else
            var d := Delete(env, c.s, name);
            if d.status != Ok then Updated(d.s, d.status, if HasId(d.s.installed, name) then NotDeleted else Erased)
            else UpdateInstall(env, d.s, path, backup)
  }

  function UpdateInstall(env: Env, s: Store, path: Path, backup: Path): Updated {
    var i := Install(env, s, path, true);
    if i.status != Ok then
      var r := Install(env, i.s, backup, true);
      Updated(r.s, i.status, NotInstalled(r.status == Ok))
    else Updated(if backup != Nowhere then Remove(env, i.s, backup).s else i.s, Ok, Replaced)
  }

  /** A restart forgets the list and the owners; the files of the installed folder are installed again. */
  function Restarted(env: Env, s: Store): Store {
    var ids := set path | path in s.files && path.InstalledFile? :: path.id;
    Reinstall(env, s.(installed := [], rules := map rule | rule in s.rules :: ""), env.list(ids))
  }

  function Reinstall(env: Env, s: Store, todo: seq<string>): Store
    decreases |todo|
  {
    if todo == [] then s else Reinstall(env, Install(env, s, InstalledFile(todo[0]), false).s, todo[1..])
  }

  // ---------- the handler as an object ----------

  lemma {:induction false} LookupAt(installed: seq<Entry>, id: string, at: nat)
    requires at <= |installed| && (forall j | 0 <= j < at :: installed[j].id != id)
    requires at < |installed| ==> installed[at].id == id
    ensures Lookup(installed, id) == (if at < |installed| then Some(installed[at]) else None)
    ensures HasId(installed, id) <==> at < |installed|
    ensures at < |installed| ==> Erase(installed, id) == installed[..at] + installed[at + 1..]
  {
    if at > 0 {
      LookupAt(installed[1..], id, at - 1);
      if at < |installed| {
        assert installed[..at] + installed[at + 1..] ==
               [installed[0]] + (installed[1..][..at - 1] + installed[1..][at..]);
      }
    }
  }

  class CmdHandler {
    const env: Env
    var installedRule: seq<Entry>
    var rules: map<string, string>
    var files: map<Path, string>
    var calls: nat

    ghost function View(): Store
      reads this
    {
      Store(installedRule, rules, files, calls)
    }

    constructor (env: Env)
      ensures this.env == env && View() == Store([], map[], map[], 0)
    {
      this.env := env;
      installedRule, rules, files, calls := [], map[], map[], 0;
    }

    method MakeCall(op: Op) returns (outcome: Outcome)
      modifies `calls
      ensures View() == old(View()).(calls := old(calls) + 1) && outcome == env.outcome(op, old(calls))
    {
      outcome := env.outcome(op, calls);
      calls := calls + 1;
    }

    method CopyFile(from: Path, to: Path) returns (ok: bool)
      modifies `files, `calls
      ensures Done(View(), ok) == Copy(env, old(View()), from, to)
    {
      var outcome := MakeCall(Op.CopyFile);
      if from !in files || outcome == Fails { return false; }
      var prior := if to in files then files[to] else "";
      files := files[to := if outcome == Works then Overwritten(files[from], prior) else prior];
      ok := outcome == Works;
    }

    method RemoveFile(path: Path) returns (ok: bool)
      modifies `files, `calls
      ensures Done(View(), ok) == Remove(env, old(View()), path)
    {
      var outcome := MakeCall(Op.RemoveFile);
      ok := path in files && outcome == Works;
      if ok { files := files - {path}; }
    }

    method MoveFile(from: Path, to: Path, changeUser: bool) returns (ok: bool)
      modifies `files, `calls
      ensures Done(View(), ok) == Move(env, old(View()), from, to, changeUser)
    {
      if !changeUser {
        var outcome := MakeCall(RenameFile);
        ok := from in files && outcome == Works;
        if ok { files := (files - {from})[to := files[from]]; }
      } else {
        ok := CopyFile(from, to);
        if ok { ok := RemoveFile(from); }
      }
    }

    method DeleteRulesOf(id: string, op: Op, stop: bool) returns (ok: bool)
      modifies `rules, `calls
      ensures Done(View(), ok) == DeleteRules(env, old(View()), env.list(old(rules).Keys), id, op, stop)
    {
      var todo := env.list(rules.Keys);
      ghost var all := DeleteRules(env, View(), todo, id, op, stop);
      var i := 0;
      while i < |todo|
        invariant 0 <= i <= |todo| && installedRule == old(installedRule) && files == old(files)
        invariant DeleteRules(env, View(), todo[i..], id, op, stop) == all
      {
        assert todo[i..][1..] == todo[i + 1..];
        if todo[i] in rules && rules[todo[i]] == id {
          var outcome := MakeCall(op);
          if outcome == Works {
            rules := rules - {todo[i]};
          } else if stop {
            return false;
          }
        }
        i := i + 1;
      }
      ok := true;
    }

    method CreateOneRule(id: string, rule: string, seen: set<string>, errorOnDuplicate: bool) returns (ok: bool)
      modifies `rules, `calls
      ensures Done(View(), ok) == ParseRule(env, old(View()), id, rule, seen, errorOnDuplicate)
    {
      var outcome := MakeCall(CreateRule);
      if outcome != Works || (rule in rules && errorOnDuplicate) { return false; }
      if rule !in rules { rules := rules[rule := ""]; }
      if rule in seen { return false; }
      outcome := MakeCall(SetTargets);
      if outcome != Works {
        outcome := MakeCall(DeleteRule);
        if outcome == Works { rules := rules - {rule}; }
        return false;
      }
      rules := rules[rule := id];
      ok := true;
    }

    method CreateRules(id: string, todo: seq<string>, errorOnDuplicate: bool) returns (ok: bool)
      modifies `rules, `calls
      ensures Done(View(), ok) == ParseRules(env, old(View()), id, todo, {}, errorOnDuplicate)
    {
      hide ParseRule;
      ghost var all := ParseRules(env, View(), id, todo, {}, errorOnDuplicate);
      var i, seen := 0, {};
      while i < |todo|
        invariant 0 <= i <= |todo| && installedRule == old(installedRule) && files == old(files)
        invariant ParseRules(env, View(), id, todo[i..], seen, errorOnDuplicate) == all
      {
        assert todo[i..][1..] == todo[i + 1..];
        ok := CreateOneRule(id, todo[i], seen, errorOnDuplicate);
        if !ok { return; }
        seen := seen + {todo[i]};
        i := i + 1;
      }
      ok := true;
    }

    method FindInstalled(id: string) returns (at: nat)
      ensures at <= |installedRule|
      ensures Lookup(installedRule, id) == if at < |installedRule| then Some(installedRule[at]) else None
      ensures HasId(installedRule, id) <==> at < |installedRule|
      ensures at < |installedRule| ==> Erase(installedRule, id) == installedRule[..at] + installedRule[at + 1..]
    {
      at := 0;
      while at < |installedRule| && installedRule[at].id != id
        invariant at <= |installedRule| && forall j | 0 <= j < at :: installedRule[j].id != id
      {
        at := at + 1;
      }
      LookupAt(installedRule, id, at);
    }

    method DiscardFile(path: Path, notStartup: bool)
      modifies `files, `calls
      ensures View() == Discard(env, old(View()), path, notStartup)
    {
      if notStartup { var ok := RemoveFile(path); }
    }

    method HandleInstall(path: Path, notStartup: bool) returns (status: Status)
      modifies this
      ensures Reply(View(), status) == Install(env, old(View()), path, notStartup)
    {
      hide DeleteRules, ParseRules, Move, Discard, HasId;
      if path !in files || path == Nowhere || env.parse(files[path]).None? {
        DiscardFile(path, notStartup);
        return ParseFailed;
      }
      var doc := env.parse(files[path]).value;
      var at := FindInstalled(doc.id);
      if at < |installedRule| {
        DiscardFile(path, notStartup);
        return Duplicated;
      }
      var ok := CreateRules(doc.id, doc.rules, notStartup);
      if !ok {
        ok := DeleteRulesOf(doc.id, RollbackRule, false);
        DiscardFile(path, notStartup);
        return ParseFailed;
      }
      ok := MoveFile(path, InstalledFile(doc.id), notStartup);
      if !ok {
        DiscardFile(path, notStartup);
        ok := DeleteRulesOf(doc.id, RollbackRule, false);
        return FileSystemFailed;
      }
      installedRule := installedRule + [Entry(doc.id, doc.revision)];
      status := Ok;
    }

    method HandleDelete(id: string) returns (status: Status)
      modifies this
      ensures Reply(View(), status) == Delete(env, old(View()), id)
    {
      hide DeleteRules, Remove, HasId, Erase;
      var at := FindInstalled(id);
      if at == |installedRule| { return Undefined; }
      var ok := DeleteRulesOf(id, DeleteRule, true);
      if !ok { return RuleFailed; }
      installedRule := installedRule[..at] + installedRule[at + 1..];
      ok := RemoveFile(InstalledFile(id));
      if !ok { return FileSystemFailed; }
      ok := RemoveFile(DeletingFile(id));
      status := if ok then Ok else FileSystemFailed;
    }

    method HandleUpdate(path: Path) returns (status: Status, stage: Stage)
      modifies this
      ensures Updated(View(), status, stage) == Update(env, old(View()), path)
    {
      hide Install, Delete, Copy, Discard, HasId, Erase, Lookup;
      if path !in files || path == Nowhere || env.parse(files[path]).None? {
        DiscardFile(path, true);
        return ParseFailed, Rejected;
      }
      var doc := env.parse(files[path]).value;
      var at := FindInstalled(doc.id);
      var name := "";
      if at < |installedRule| {
        if installedRule[at] == Entry(doc.id, doc.revision) {
          DiscardFile(path, true);
          return Duplicated, Rejected;
        }
        name := doc.id;
      }
      var backup := BACKUP;
      var ok := CopyFile(InstalledFile(name), BACKUP);
      if !ok { backup := Nowhere; }
      if name != "" {
        ok := CopyFile(InstalledFile(name), DeletingFile(name));
        if !ok { return FileSystemFailed, NotDeleted; }
        status := HandleDelete(name);
        if status != Ok {
          at := FindInstalled(name);
          stage := if at < |installedRule| then NotDeleted else Erased;
          return;
        }
      }
      status, stage := ReplaceRuleSet(path, backup);
    }

    /** The installation of the new file, or of the backup if that fails. */
    method ReplaceRuleSet(path: Path, backup: Path) returns (status: Status, stage: Stage)
      modifies this
      ensures Updated(View(), status, stage) == UpdateInstall(env, old(View()), path, backup)
    {
      hide Install, Remove;
      status := HandleInstall(path, true);
      if status != Ok {
        var result := HandleInstall(backup, true);
        stage := NotInstalled(result == Ok);
      } else {
        if backup != Nowhere { var ok := RemoveFile(backup); }
        stage := Replaced;
      }
    }

    /** The first of the startup operations, in a process that has just started. */
    method HandleStartup()
      modifies this
      ensures View() == Restarted(env, old(View()))
    {
      hide Install;
      installedRule, rules := [], map rule | rule in rules :: "";
      var todo := env.list(set path | path in files && path.InstalledFile? :: path.id);
      ghost var all := Reinstall(env, View(), todo);
      var i := 0;
      while i < |todo|
        invariant 0 <= i <= |todo| && Reinstall(env, View(), todo[i..]) == all
      {
        var status := HandleInstall(InstalledFile(todo[i]), false);
        i := i + 1;
      }
    }
  }
}
