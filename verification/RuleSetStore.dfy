/** What every request keeps of the rule-set store, whatever calls fail. */
module RuleSetStore {
  import opened CmdHandler

  // ---------- the installed list ----------

  ghost predicate IdsDistinct(installed: seq<Entry>) {
    forall i, j | 0 <= i < j < |installed| :: installed[i].id != installed[j].id
  }

  ghost function Entries(installed: seq<Entry>): set<Entry> { set e | e in installed }

  ghost function Others(entries: set<Entry>, id: string): set<Entry> { set e | e in entries && e.id != id }

  lemma EraseOthers(installed: seq<Entry>, id: string)
    requires IdsDistinct(installed)
    ensures Entries(Erase(installed, id)) == Others(Entries(installed), id) && IdsDistinct(Erase(installed, id))
    ensures !HasId(Erase(installed, id), id)
  {
    hide Erase;
    EraseMembers(installed, id);
    EraseDistinct(installed, id);
  }

  lemma {:induction false} EraseMembers(installed: seq<Entry>, id: string)
    requires IdsDistinct(installed)
    ensures forall e :: e in Erase(installed, id) <==> e in installed && e.id != id
  {
    if installed != [] {
      var first, rest := installed[0], installed[1..];
      assert installed == [first] + rest;
      assert IdsDistinct(rest);
      assert forall e | e in rest :: e.id != first.id;
      EraseMembers(rest, id);
      if first.id != id { assert Erase(installed, id) == [first] + Erase(rest, id); }
    }
  }

  lemma {:induction false} EraseDistinct(installed: seq<Entry>, id: string)
    requires IdsDistinct(installed)
    ensures IdsDistinct(Erase(installed, id))
  {
    if installed != [] {
      var first, rest := installed[0], installed[1..];
      assert IdsDistinct(rest);
      EraseDistinct(rest, id);
      EraseMembers(rest, id);
      if first.id != id {
        var erased := Erase(rest, id);
        assert forall i | 0 <= i < |erased| :: erased[i] in rest && erased[i].id != first.id;
        assert Erase(installed, id) == [first] + erased;
      }
    }
  }

  lemma {:induction false} LookupFinds(installed: seq<Entry>, id: string)
    ensures match Lookup(installed, id)
            case Some(e) => e in installed && e.id == id && HasId(installed, id)
            case None => !HasId(installed, id)
  {
    if installed != [] {
      var rest := installed[1..];
      assert forall i | 0 <= i < |rest| :: rest[i] == installed[i + 1];
      LookupFinds(rest, id);
      assert installed[0].id == id || (HasId(installed, id) <==> HasId(rest, id)) by {
        if HasId(installed, id) && installed[0].id != id {
          var i :| 0 <= i < |installed| && installed[i].id == id;
          assert rest[i - 1].id == id;
        }
      }
    }
  }

  // ---------- deleting and creating rules ----------

  ghost predicate Within(fewer: map<string, string>, rules: map<string, string>) {
    forall rule | rule in fewer :: rule in rules && fewer[rule] == rules[rule]
  }

  ghost predicate NoneOwned(rules: map<string, string>, id: string) {
    forall rule | rule in rules :: rules[rule] != id
  }

  /** Deleting rules touches nothing else; when it comes to the end without a failure, none of those listed is left. */
  lemma {:induction false} DeleteRulesShrinks(env: Env, s: Store, todo: seq<string>, id: string, op: Op, stop: bool)
    ensures var d := DeleteRules(env, s, todo, id, op, stop);
            && d.s == s.(rules := d.s.rules, calls := d.s.calls) && Within(d.s.rules, s.rules)
            && ((stop && d.ok) || (forall n :: env.outcome(op, n) == Works) ==>
                  && d.ok
                  && d.s.rules == map rule | rule in s.rules && !(rule in todo && s.rules[rule] == id) :: s.rules[rule])
    decreases |todo|
  {
    if todo != [] {
      if todo[0] in s.rules && s.rules[todo[0]] == id {
        var d := DeleteObject(env, s, todo[0], op);
        if d.ok || !stop { DeleteRulesShrinks(env, d.s, todo[1..], id, op, stop); }
      } else {
        DeleteRulesShrinks(env, s, todo[1..], id, op, stop);
      }
    }
  }

  /** Every deletion that a rollback makes works. */
  ghost predicate AllDeleted(env: Env, s: Store, todo: seq<string>, id: string)
    decreases |todo|
  {
    todo == [] ||
    if todo[0] in s.rules && s.rules[todo[0]] == id then
      DeleteObject(env, s, todo[0], RollbackRule).ok &&
      AllDeleted(env, DeleteObject(env, s, todo[0], RollbackRule).s, todo[1..], id)
    else AllDeleted(env, s, todo[1..], id)
  }

  ghost predicate NoneListed(rules: map<string, string>, todo: seq<string>, id: string) {
    forall rule | rule in todo && rule in rules :: rules[rule] != id
  }

  lemma {:induction false} NoneListedIff(env: Env, s: Store, todo: seq<string>, id: string)
    requires NoDup(todo)
    ensures NoneListed(DeleteRules(env, s, todo, id, RollbackRule, false).s.rules, todo, id) <==>
              AllDeleted(env, s, todo, id)
    ensures forall rule | rule in s.rules && rule !in todo ::
              rule in DeleteRules(env, s, todo, id, RollbackRule, false).s.rules &&
              DeleteRules(env, s, todo, id, RollbackRule, false).s.rules[rule] == s.rules[rule]
    decreases |todo|
  {
    if todo != [] {
      var t :=
        if todo[0] in s.rules && s.rules[todo[0]] == id then DeleteObject(env, s, todo[0], RollbackRule).s else s;
      NoneListedIff(env, t, todo[1..], id);
      DeleteRulesShrinks(env, t, todo[1..], id, RollbackRule, false);
      assert todo == [todo[0]] + todo[1..];
    }
  }

  lemma {:induction false} AllDeletedIfWork(env: Env, s: Store, todo: seq<string>, id: string)
    requires env.RollbacksWork()
    ensures AllDeleted(env, s, todo, id)
    decreases |todo|
  {
    if todo != [] {
      var t :=
        if todo[0] in s.rules && s.rules[todo[0]] == id then DeleteObject(env, s, todo[0], RollbackRule).s else s;
      AllDeletedIfWork(env, t, todo[1..], id);
    }
  }

  ghost predicate RolledBack(env: Env, s: Store, id: string) { AllDeleted(env, s, env.list(s.rules.Keys), id) }

  /** A rollback leaves no rule of the rule set exactly if all its deletions work. */
  lemma RollbackClearsIff(env: Env, s: Store, id: string)
    requires env.Valid()
    ensures var t := Rollback(env, s, id);
            && t == s.(rules := t.rules, calls := t.calls) && Within(t.rules, s.rules)
            && (NoneOwned(t.rules, id) <==> RolledBack(env, s, id))
            && (env.RollbacksWork() ==> RolledBack(env, s, id))
  {
    var todo := env.list(s.rules.Keys);
    DeleteRulesShrinks(env, s, todo, id, RollbackRule, false);
    NoneListedIff(env, s, todo, id);
    if env.RollbacksWork() { AllDeletedIfWork(env, s, todo, id); }
    assert forall rule | rule in s.rules :: rule in todo;
  }

  ghost predicate OwnersIn(rules: map<string, string>, ids: set<string>) {
    forall rule | rule in rules :: rules[rule] == "" || rules[rule] in ids
  }

  ghost function Ids(installed: seq<Entry>): set<string> { set e | e in installed :: e.id }

  lemma {:induction false} ParseRulesOwners(env: Env, s: Store, id: string, todo: seq<string>, seen: set<string>,
                                           strict: bool, ids: set<string>)
    requires OwnersIn(s.rules, ids) && id in ids
    ensures var p := ParseRules(env, s, id, todo, seen, strict);
            p.s == s.(rules := p.s.rules, calls := p.s.calls) && OwnersIn(p.s.rules, ids)
    decreases |todo|
  {
    if todo != [] {
      var rule := todo[0];
      var c := Call(env, s, CreateRule);
      var t := if rule in s.rules then c.s else c.s.(rules := s.rules[rule := ""]);
      var u := Call(env, t, SetTargets);
      ParseRulesOwners(env, u.s.(rules := u.s.rules[rule := id]), id, todo[1..], seen + {rule}, strict, ids);
    }
  }

  // ---------- the invariant of the store, for any failures ----------

  /** Installed identifiers are distinct, and every rule that has an owner has an installed one. */
  ghost predicate Sound(s: Store) { IdsDistinct(s.installed) && OwnersIn(s.rules, Ids(s.installed)) }

  lemma RemovalOnlyFiles(env: Env, s: Store, path: Path, notStartup: bool)
    ensures var t := Discard(env, s, path, notStartup); t == s.(files := t.files, calls := t.calls)
    ensures var t := Remove(env, s, path).s; t == s.(files := t.files, calls := t.calls)
  {
  }

  lemma MoveOnlyFiles(env: Env, s: Store, from: Path, to: Path, changeUser: bool)
    ensures var t := Move(env, s, from, to, changeUser).s; t == s.(files := t.files, calls := t.calls)
    ensures var t := Copy(env, s, from, to).s; t == s.(files := t.files, calls := t.calls)
  {
  }

  lemma ClearedOwners(rules: map<string, string>, left: map<string, string>, id: string, ids: set<string>)
    requires OwnersIn(rules, ids + {id}) && Within(left, rules) && NoneOwned(left, id)
    ensures OwnersIn(left, ids)
  {
  }

  /** Installing adds one entry or none. */
  lemma InstallEntries(env: Env, s: Store, path: Path, notStartup: bool)
    ensures var r := Install(env, s, path, notStartup);
            if r.status == Ok then
              Info(env, s, path).Some? && !HasId(s.installed, Info(env, s, path).value.id) &&
              r.s.installed == s.installed + [Entry(Info(env, s, path).value.id, Info(env, s, path).value.revision)]
            else r.s.installed == s.installed
  {
    hide Move, DeleteRules, ParseRules, Remove, Rollback, Discard;
    InstallKeepsList(env, s, path, notStartup);
  }

  lemma InstallKeepsList(env: Env, s: Store, path: Path, notStartup: bool)
    ensures Discard(env, s, path, notStartup).installed == s.installed
    ensures Info(env, s, path).Some? ==>
              var doc := Info(env, s, path).value;
              var p := ParseRules(env, s, doc.id, doc.rules, {}, notStartup);
              var m := Move(env, p.s, path, InstalledFile(doc.id), notStartup);
              && p.s.installed == s.installed && m.s.installed == s.installed
              && Discard(env, Rollback(env, p.s, doc.id), path, notStartup).installed == s.installed
              && Rollback(env, Discard(env, m.s, path, notStartup), doc.id).installed == s.installed
  {
    RemovalOnlyFiles(env, s, path, notStartup);
    if Info(env, s, path).Some? {
      var doc := Info(env, s, path).value;
      var owners := (set rule | rule in s.rules :: s.rules[rule]) + {doc.id};
      ParseRulesOwners(env, s, doc.id, doc.rules, {}, notStartup, owners);
      var p := ParseRules(env, s, doc.id, doc.rules, {}, notStartup);
      hide ParseRules, DeleteRules;
      MoveOnlyFiles(env, p.s, path, InstalledFile(doc.id), notStartup);
      var m := Move(env, p.s, path, InstalledFile(doc.id), notStartup);
      RemovalOnlyFiles(env, m.s, path, notStartup);
      RollbackOnlyRules(env, p.s, doc.id);
      RemovalOnlyFiles(env, Rollback(env, p.s, doc.id), path, notStartup);
      RollbackOnlyRules(env, Discard(env, m.s, path, notStartup), doc.id);
    }
  }

  lemma RollbackOnlyRules(env: Env, s: Store, id: string)
    ensures var t := Rollback(env, s, id); t == s.(rules := t.rules, calls := t.calls)
  {
    DeleteRulesShrinks(env, s, env.list(s.rules.Keys), id, RollbackRule, false);
  }

  /** Either nothing is rolled back, or the rollback deletes all that it should. */
  ghost predicate CleanInstall(env: Env, s: Store, path: Path, notStartup: bool) {
    Info(env, s, path).Some? && !HasId(s.installed, Info(env, s, path).value.id) ==>
      var doc := Info(env, s, path).value;
      var p := ParseRules(env, s, doc.id, doc.rules, {}, notStartup);
      var m := Move(env, p.s, path, InstalledFile(doc.id), notStartup);
      if !p.ok then RolledBack(env, p.s, doc.id)
      else if !m.ok then RolledBack(env, Discard(env, m.s, path, notStartup), doc.id)
      else true
  }

  /** Whatever fails, installing keeps the store sound exactly if the rollback, if any, deletes all its rules. */
  lemma InstallSoundIff(env: Env, s: Store, path: Path, notStartup: bool)
    requires env.Valid() && Sound(s)
    ensures Sound(Install(env, s, path, notStartup).s) <==> CleanInstall(env, s, path, notStartup)
    ensures env.RollbacksWork() ==> CleanInstall(env, s, path, notStartup)
  {
    hide DeleteRules, ParseRules, Move, Remove, Discard, Rollback, RolledBack;
    RemovalOnlyFiles(env, s, path, notStartup);
    if Info(env, s, path).Some? && !HasId(s.installed, Info(env, s, path).value.id) {
      var doc, ids := Info(env, s, path).value, Ids(s.installed);
      var p := ParseRules(env, s, doc.id, doc.rules, {}, notStartup);
      ParseRulesOwners(env, s, doc.id, doc.rules, {}, notStartup, ids + {doc.id});
      NotAmongIds(s.installed, doc.id);
      if !p.ok {
        RollbackSoundIff(env, p.s, doc.id, ids);
        RemovalOnlyFiles(env, Rollback(env, p.s, doc.id), path, notStartup);
      } else {
        var m := Move(env, p.s, path, InstalledFile(doc.id), notStartup);
        MoveOnlyFiles(env, p.s, path, InstalledFile(doc.id), notStartup);
        if !m.ok {
          RemovalOnlyFiles(env, m.s, path, notStartup);
          RollbackSoundIff(env, Discard(env, m.s, path, notStartup), doc.id, ids);
        } else {
          AddedIds(s.installed, Entry(doc.id, doc.revision));
        }
      }
    }
  }

  lemma NotAmongIds(installed: seq<Entry>, id: string)
    ensures HasId(installed, id) <==> id in Ids(installed)
  {
  }

  lemma AddedIds(installed: seq<Entry>, e: Entry)
    requires IdsDistinct(installed) && !HasId(installed, e.id)
    ensures Ids(installed + [e]) == Ids(installed) + {e.id} && IdsDistinct(installed + [e])
  {
  }

  lemma RollbackSoundIff(env: Env, s: Store, id: string, ids: set<string>)
    requires env.Valid() && OwnersIn(s.rules, ids + {id}) && id != "" && id !in ids
    ensures var t := Rollback(env, s, id);
            && t == s.(rules := t.rules, calls := t.calls)
            && (OwnersIn(t.rules, ids) <==> RolledBack(env, s, id))
            && (env.RollbacksWork() ==> RolledBack(env, s, id))
  {
    hide Rollback, RolledBack;
    RollbackClearsIff(env, s, id);
  }

  /** A deletion that stops half way keeps the entry; one that does not leaves no rule behind. */
  lemma DeleteSound(env: Env, s: Store, id: string)
    requires env.Valid() && Sound(s)
    ensures Sound(Delete(env, s, id).s)
    ensures Delete(env, s, id).s.installed == s.installed || Delete(env, s, id).s.installed == Erase(s.installed, id)
  {
    hide DeleteRules, Remove, Env.Valid;
    if HasId(s.installed, id) {
      var d := DeleteRules(env, s, env.list(s.rules.Keys), id, DeleteRule, true);
      DeleteRulesShrinks(env, s, env.list(s.rules.Keys), id, DeleteRule, true);
      EraseOthers(s.installed, id);
      if d.ok {
        NoneLeft(env, s, id, d.s.rules);
        var e := d.s.(installed := Erase(d.s.installed, id));
        ErasedIds(s.installed, id);
        ClearedOwners(s.rules, d.s.rules, id, Ids(e.installed));
        RemovalOnlyFiles(env, e, InstalledFile(id), true);
        RemovalOnlyFiles(env, Remove(env, e, InstalledFile(id)).s, DeletingFile(id), true);
      }
    }
  }

  lemma NoneLeft(env: Env, s: Store, id: string, left: map<string, string>)
    requires env.Valid()
    requires left ==
             map rule | rule in s.rules && !(rule in env.list(s.rules.Keys) && s.rules[rule] == id) :: s.rules[rule]
    ensures NoneOwned(left, id)
  {
  }

  lemma ErasedIds(installed: seq<Entry>, id: string)
    requires IdsDistinct(installed)
    ensures Ids(installed) <= Ids(Erase(installed, id)) + {id}
  {
    EraseOthers(installed, id);
    forall x | x in Ids(installed) ensures x in Ids(Erase(installed, id)) + {id} {
      var e :| e in installed && e.id == x;
      assert x == id || e in Entries(Erase(installed, id));
    }
  }

  lemma UpdateSound(env: Env, s: Store, path: Path)
    requires env.Valid() && env.RollbacksWork() && Sound(s)
    ensures Sound(Update(env, s, path).s)
  {
    hide Install, Delete, Copy, Remove, Discard, UpdateInstall, Env.Valid, Env.RollbacksWork, Sound;
    RemovalOnlyFiles(env, s, path, true);
    SoundOfFiles(s, Discard(env, s, path, true));
    if Info(env, s, path).Some? {
      var doc := Info(env, s, path).value;
      var prior := Lookup(s.installed, doc.id);
      var name := if prior.Some? then doc.id else "";
      var b := Copy(env, s, InstalledFile(name), BACKUP);
      var backup := if b.ok then BACKUP else Nowhere;
      MoveOnlyFiles(env, s, InstalledFile(name), BACKUP, true);
      SoundOfFiles(s, b.s);
      UpdateInstallSound(env, b.s, path, backup);
      var c := Copy(env, b.s, InstalledFile(name), DeletingFile(name));
      MoveOnlyFiles(env, b.s, InstalledFile(name), DeletingFile(name), true);
      SoundOfFiles(b.s, c.s);
      DeleteSound(env, c.s, name);
      UpdateInstallSound(env, Delete(env, c.s, name).s, path, backup);
    }
  }

  lemma SoundOfFiles(s: Store, t: Store)
    requires t == s.(files := t.files, calls := t.calls)
    ensures Sound(t) == Sound(s)
  {
  }

  lemma UpdateInstallSound(env: Env, s: Store, path: Path, backup: Path)
    requires env.Valid() && env.RollbacksWork() && Sound(s)
    ensures Sound(UpdateInstall(env, s, path, backup).s)
  {
    hide Install, Remove, Env.Valid, Env.RollbacksWork, Sound, CleanInstall;
    var i := Install(env, s, path, true);
    InstallSoundIff(env, s, path, true);
    InstallSoundIff(env, i.s, backup, true);
    RemovalOnlyFiles(env, i.s, backup, true);
    SoundOfFiles(i.s, Remove(env, i.s, backup).s);
  }

  lemma {:induction false} ReinstallSound(env: Env, s: Store, todo: seq<string>)
    requires env.Valid() && env.RollbacksWork() && Sound(s)
    ensures Sound(Reinstall(env, s, todo))
    decreases |todo|
  {
    hide Install, Env.Valid, Env.RollbacksWork, Sound, CleanInstall;
    if todo != [] {
      InstallSoundIff(env, s, InstalledFile(todo[0]), false);
      ReinstallSound(env, Install(env, s, InstalledFile(todo[0]), false).s, todo[1..]);
    }
  }

  // ---------- requests ----------

  datatype Request =
    Put(path: Path, text: string) | InstallFile(path: Path) | DeleteId(id: string) | UpdateFile(path: Path) | Restart

  /** The command line tool puts files into the installing and deleting folders; the server does the rest. */
  function Handle(env: Env, s: Store, request: Request): Store {
    match request
    case Put(path, text) => s.(files := s.files[path := text])
    case InstallFile(path) => Install(env, s, path, true).s
    case DeleteId(id) => Delete(env, s, id).s
    case UpdateFile(path) => Update(env, s, path).s
    case Restart => Restarted(env, s)
  }

  function HandleAll(env: Env, s: Store, requests: seq<Request>): Store {
    if requests == [] then s else Handle(env, HandleAll(env, s, requests[..|requests| - 1]), requests[|requests| - 1])
  }

  const EMPTY := Store([], map[], map[], 0)

  /** In every run, whatever else fails, the store stays sound if the deletions of rollbacks work. */
  lemma {:induction false} AlwaysSound(env: Env, requests: seq<Request>)
    requires env.Valid() && env.RollbacksWork()
    ensures Sound(HandleAll(env, EMPTY, requests))
  {
    hide Install, Delete, Update, Restarted, Env.Valid, Env.RollbacksWork, CleanInstall;
    if requests != [] {
      var s := HandleAll(env, EMPTY, requests[..|requests| - 1]);
      AlwaysSound(env, requests[..|requests| - 1]);
      match requests[|requests| - 1] {
        case Put(path, text) =>
        case InstallFile(path) => InstallSoundIff(env, s, path, true);
        case DeleteId(id) => DeleteSound(env, s, id);
        case UpdateFile(path) => UpdateSound(env, s, path);
        case Restart => RestartSound(env, s);
      }
    }
  }

  lemma RestartSound(env: Env, s: Store)
    requires env.Valid() && env.RollbacksWork()
    ensures Sound(Restarted(env, s))
  {
    hide Reinstall, Env.Valid, Env.RollbacksWork;
    var ids := set path | path in s.files && path.InstalledFile? :: path.id;
    ReinstallSound(env, s.(installed := [], rules := map rule | rule in s.rules :: ""), env.list(ids));
  }
}
