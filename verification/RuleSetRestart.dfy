/** Without failures the installed folder mirrors the store: updates are all or nothing, and a restart rebuilds it. */
module RuleSetRestart {
  import opened Prelude
  import opened CmdHandler
  import opened RuleSetStore
  import opened RuleSetUpdates

  function RulesOf(env: Env, s: Store, id: string): seq<string> {
    match Info(env, s, InstalledFile(id))
    case Some(doc) => doc.rules
    case None => []
  }

  ghost predicate NoStrayFile(s: Store) {
    forall path | path in s.files && path.InstalledFile? :: HasId(s.installed, path.id)
  }

  /** The file of every installed rule set has its identifier and revision. */
  ghost predicate Filed(env: Env, s: Store) {
    forall e | e in s.installed ::
      var file := Info(env, s, InstalledFile(e.id));
      file.Some? && file.value.id == e.id && file.value.revision == e.revision
  }

  /** The rules are those of the installed files, each owned by the rule set of its file. */
  ghost predicate RulesFiled(env: Env, s: Store) {
    && (forall e | e in s.installed :: NoDup(RulesOf(env, s, e.id)))
    && (forall e, rule | e in s.installed && rule in RulesOf(env, s, e.id) :: rule in s.rules && s.rules[rule] == e.id)
    && (forall rule | rule in s.rules :: HasId(s.installed, s.rules[rule]) && rule in RulesOf(env, s, s.rules[rule]))
  }

  ghost predicate Mirrored(env: Env, s: Store) {
    IdsDistinct(s.installed) && Filed(env, s) && NoStrayFile(s) && RulesFiled(env, s)
  }

  // ---------- creating and deleting rules without failures ----------

  ghost function Owned(rules: map<string, string>, todo: seq<string>, id: string): map<string, string> {
    map rule | rule in rules.Keys + (set r | r in todo) :: if rule in todo then id else rules[rule]
  }

  ghost function NotOwned(rules: map<string, string>, id: string): map<string, string> {
    map rule | rule in rules && rules[rule] != id :: rules[rule]
  }

  predicate Fresh(rules: map<string, string>, todo: seq<string>) { forall rule | rule in todo :: rule !in rules }

  /** The rules are created exactly if they are distinct and new; otherwise some of them are left for the rollback. */
  lemma {:induction false} ParseWorks(env: Env, s: Store, id: string, todo: seq<string>, seen: set<string>)
    requires env.AllWork() && seen <= s.rules.Keys
    ensures var p := ParseRules(env, s, id, todo, seen, true);
            && p.s == s.(rules := p.s.rules, calls := p.s.calls)
            && (p.ok <==> NoDup(todo) && Fresh(s.rules, todo))
            && (p.ok ==> p.s.rules == Owned(s.rules, todo, id))
            && Within(s.rules, p.s.rules)
            && (forall rule | rule in p.s.rules && rule !in s.rules :: p.s.rules[rule] == id)
    decreases |todo|
  {
    if todo == [] {
      assert Owned(s.rules, todo, id) == s.rules;
    } else if todo[0] !in s.rules {
      var rule, rest := todo[0], todo[1..];
      var t := s.(rules := s.rules[rule := ""][rule := id], calls := s.calls + 2);
      assert ParseRule(env, s, id, rule, seen, true) == Done(t, true);
      hide ParseRule;
      assert ParseRules(env, s, id, todo, seen, true) == ParseRules(env, t, id, rest, seen + {rule}, true);
      ParseWorks(env, t, id, rest, seen + {rule});
      hide ParseRules;
      OneMoreRule(s.rules, t.rules, todo, id);
    }
  }

  lemma OneMoreRule(rules: map<string, string>, more: map<string, string>, todo: seq<string>, id: string)
    requires todo != [] && todo[0] !in rules && more == rules[todo[0] := ""][todo[0] := id]
    ensures NoDup(todo) && Fresh(rules, todo) <==> NoDup(todo[1..]) && Fresh(more, todo[1..])
    ensures Owned(more, todo[1..], id) == Owned(rules, todo, id)
  {
    assert todo == [todo[0]] + todo[1..];
    assert more == rules[todo[0] := id];
    OwnedMore(rules, todo[0], todo[1..], todo, id);
  }

  lemma OwnedMore(rules: map<string, string>, rule: string, rest: seq<string>, todo: seq<string>, id: string)
    requires todo == [rule] + rest
    ensures Owned(rules[rule := id], rest, id) == Owned(rules, todo, id)
  {
  }

  /** At startup the rules exist already and get their owner back. */
  lemma {:induction false} ReparseWorks(env: Env, s: Store, id: string, todo: seq<string>, seen: set<string>)
    requires env.AllWork() && NoDup(todo) && (forall rule | rule in todo :: rule !in seen && rule in s.rules)
    ensures var p := ParseRules(env, s, id, todo, seen, false);
            p.ok && p.s == s.(rules := Owned(s.rules, todo, id), calls := p.s.calls)
    decreases |todo|
  {
    if todo == [] {
      assert Owned(s.rules, todo, id) == s.rules;
    } else {
      var rule, rest := todo[0], todo[1..];
      var t := s.(rules := s.rules[rule := id], calls := s.calls + 2);
      assert todo == [rule] + rest;
      ReparseWorks(env, t, id, rest, seen + {rule});
      OwnedMore(s.rules, rule, rest, todo, id);
    }
  }

  lemma RollbackWorks(env: Env, s: Store, id: string)
    requires env.Valid() && env.AllWork()
    ensures var t := Rollback(env, s, id); t == s.(rules := NotOwned(s.rules, id), calls := t.calls)
  {
    DeleteRulesShrinks(env, s, env.list(s.rules.Keys), id, RollbackRule, false);
    assert forall rule | rule in s.rules :: rule in env.list(s.rules.Keys);
    assert Rollback(env, s, id).rules == NotOwned(s.rules, id);
  }

  // ---------- installing ----------

  predicate Acceptable(env: Env, s: Store, path: Path) {
    && Info(env, s, path).Some? && !HasId(s.installed, Info(env, s, path).value.id)
    && NoDup(Info(env, s, path).value.rules) && Fresh(s.rules, Info(env, s, path).value.rules)
  }

  /** The store after the document of the file has been installed. */
  ghost function WithDocument(s: Store, path: Path, doc: Document, calls: nat): Store
    requires path in s.files
  {
    Store(s.installed + [Entry(doc.id, doc.revision)], Owned(s.rules, doc.rules, doc.id),
          s.files[InstalledFile(doc.id) := s.files[path]] - {path}, calls)
  }

  /**
   A file is installed exactly if its rule set and all its rules are new; in any case it leaves the installing folder.
   */
  lemma InstallWorks(env: Env, s: Store, path: Path)
    requires env.Valid() && env.AllWork() && Mirrored(env, s) && path.InstallingFile?
    ensures var r := Install(env, s, path, true);
            && (r.status == Ok <==> Acceptable(env, s, path))
            && r.s == if Acceptable(env, s, path) then WithDocument(s, path, Info(env, s, path).value, r.s.calls)
                      else s.(files := s.files - {path}, calls := r.s.calls)
  {
    hide ParseRules, DeleteRules, Rollback, Filed, Env.Valid, IdsDistinct;
    if Info(env, s, path).Some? && !HasId(s.installed, Info(env, s, path).value.id) {
      var doc := Info(env, s, path).value;
      ParseWorks(env, s, doc.id, doc.rules, {});
      var p := ParseRules(env, s, doc.id, doc.rules, {}, true);
      if !p.ok {
        RollbackWorks(env, p.s, doc.id);
        assert NotOwned(p.s.rules, doc.id) == s.rules;
      } else {
        assert InstalledFile(doc.id) !in s.files;
      }
    }
  }

  lemma WithDocumentMirrored(env: Env, s: Store, path: Path, calls: nat)
    requires Mirrored(env, s) && path.InstallingFile? && Acceptable(env, s, path)
    ensures Mirrored(env, WithDocument(s, path, Info(env, s, path).value, calls))
  {
    hide HasId, NoDup;
    var doc := Info(env, s, path).value;
    var t := WithDocument(s, path, doc, calls);
    HasIdMore(s.installed, Entry(doc.id, doc.revision));
    SameInfo(env, s, t, doc.id);
    AddedIds(s.installed, Entry(doc.id, doc.revision));
    assert Info(env, t, InstalledFile(doc.id)) == Some(doc);
    NotHere(s.installed, doc.id);
    forall e | e in t.installed ensures e in s.installed || e == Entry(doc.id, doc.revision) {}
    forall rule | rule in t.rules ensures HasId(t.installed, t.rules[rule]) && rule in RulesOf(env, t, t.rules[rule]) {
      if rule !in doc.rules {
        assert rule in s.rules && HasId(s.installed, s.rules[rule]);
      }
    }
  }

  lemma NotHere(installed: seq<Entry>, id: string)
    requires !HasId(installed, id)
    ensures forall e | e in installed :: e.id != id
  {
  }

  lemma HasIdMore(installed: seq<Entry>, e: Entry)
    ensures forall id :: HasId(installed + [e], id) <==> HasId(installed, id) || id == e.id
  {
    forall id ensures HasId(installed + [e], id) <==> HasId(installed, id) || id == e.id {
      NotAmongIds(installed, id);
      NotAmongIds(installed + [e], id);
      assert Ids(installed + [e]) == Ids(installed) + {e.id} by { assert e in installed + [e]; }
    }
  }

  /** Files of other rule sets say the same as before. */
  lemma SameInfo(env: Env, s: Store, t: Store, id: string)
    requires forall path: Path | path.InstalledFile? && path.id != id :: SameFile(s, t, path)
    ensures forall other | other != id :: Info(env, t, InstalledFile(other)) == Info(env, s, InstalledFile(other))
  {
  }

  lemma OtherFilesMirrored(env: Env, s: Store, t: Store)
    requires Mirrored(env, s) && t == s.(files := t.files, calls := t.calls)
    requires forall path: Path | path.InstalledFile? :: SameFile(s, t, path)
    ensures Mirrored(env, t)
  {
    hide HasId, NoDup, IdsDistinct;
    forall id ensures Info(env, t, InstalledFile(id)) == Info(env, s, InstalledFile(id)) {
      assert SameFile(s, t, InstalledFile(id));
    }
    forall path | path in t.files && path.InstalledFile? ensures HasId(t.installed, path.id) {
      assert SameFile(s, t, path);
    }
  }

  // ---------- deleting ----------

  ghost function Without(s: Store, id: string, calls: nat): Store {
    Store(Erase(s.installed, id), NotOwned(s.rules, id), s.files - {InstalledFile(id), DeletingFile(id)}, calls)
  }

  lemma DeleteWorks(env: Env, s: Store, id: string)
    requires env.Valid() && env.AllWork() && Mirrored(env, s) && HasId(s.installed, id)
    ensures var r := Delete(env, s, id);
            r.s == Without(s, id, r.s.calls) && (r.status == Ok <==> DeletingFile(id) in s.files)
  {
    hide Mirrored, HasId, DeleteRules, Env.Valid, Erase, NotOwned, Remove;
    InstalledThere(env, s, id);
    DeleteRulesWorks(env, s, id);
    var d := DeleteRules(env, s, env.list(s.rules.Keys), id, DeleteRule, true);
    RemoveBoth(env, d.s.(installed := Erase(s.installed, id)), id);
  }

  lemma InstalledThere(env: Env, s: Store, id: string)
    requires Mirrored(env, s) && HasId(s.installed, id)
    ensures InstalledFile(id) in s.files
  {
    hide IdsDistinct, RulesFiled;
    var e :| e in s.installed && e.id == id;
  }

  lemma DeleteRulesWorks(env: Env, s: Store, id: string)
    requires env.Valid() && env.AllWork()
    ensures var d := DeleteRules(env, s, env.list(s.rules.Keys), id, DeleteRule, true);
            d.ok && d.s == s.(rules := NotOwned(s.rules, id), calls := d.s.calls)
  {
    DeleteRulesShrinks(env, s, env.list(s.rules.Keys), id, DeleteRule, true);
    assert forall rule | rule in s.rules :: rule in env.list(s.rules.Keys);
    assert DeleteRules(env, s, env.list(s.rules.Keys), id, DeleteRule, true).s.rules == NotOwned(s.rules, id);
  }

  lemma RemoveBoth(env: Env, s: Store, id: string)
    requires env.AllWork() && InstalledFile(id) in s.files
    ensures var r := Remove(env, s, InstalledFile(id));
            var q := Remove(env, r.s, DeletingFile(id));
            && r.ok && (q.ok <==> DeletingFile(id) in s.files)
            && q.s == s.(files := s.files - {InstalledFile(id), DeletingFile(id)}, calls := q.s.calls)
  {
    assert s.files - {InstalledFile(id)} - {DeletingFile(id)} == s.files - {InstalledFile(id), DeletingFile(id)};
    assert DeletingFile(id) !in s.files ==>
      s.files - {InstalledFile(id)} == s.files - {InstalledFile(id), DeletingFile(id)};
  }

  lemma WithoutMirrored(env: Env, s: Store, id: string, calls: nat)
    requires Mirrored(env, s)
    ensures Mirrored(env, Without(s, id, calls))
  {
    hide HasId, NoDup, Erase;
    var t := Without(s, id, calls);
    EraseMembers(s.installed, id);
    EraseOthers(s.installed, id);
    SameInfo(env, s, t, id);
    HasIdFewer(s.installed, id);
    forall rule | rule in t.rules ensures HasId(t.installed, t.rules[rule]) && rule in RulesOf(env, t, t.rules[rule]) {
      assert rule in s.rules;
    }
    forall path | path in t.files && path.InstalledFile? ensures HasId(t.installed, path.id) {
      assert path in s.files;
    }
  }

  lemma HasIdFewer(installed: seq<Entry>, id: string)
    requires IdsDistinct(installed)
    ensures forall other | other != id :: HasId(Erase(installed, id), other) <==> HasId(installed, other)
  {
    EraseMembers(installed, id);
    forall other | other != id ensures HasId(Erase(installed, id), other) <==> HasId(installed, other) {
      NotAmongIds(installed, other);
      NotAmongIds(Erase(installed, id), other);
    }
  }

  // ---------- updating ----------

  /** Another revision, or another rule set, whose rules are distinct and belong to no other rule set. */
  predicate Updatable(env: Env, s: Store, path: Path) {
    Info(env, s, path).Some? &&
    var doc := Info(env, s, path).value;
    && Lookup(s.installed, doc.id) != Some(Entry(doc.id, doc.revision)) && NoDup(doc.rules)
    && forall rule | rule in doc.rules && rule in s.rules :: s.rules[rule] == doc.id
  }

  ghost predicate SameInstalledFiles(s: Store, t: Store) {
    forall path: Path | path.InstalledFile? :: SameFile(s, t, path)
  }

  /** The update has replaced the rule set, or has left entries, rules and installed files as they were. */
  ghost predicate AllOrNothing(env: Env, s: Store, path: Path, u: Updated) {
    && (u.status == Ok <==> Updatable(env, s, path))
    && if u.status == Ok then
         var doc := Info(env, s, path).value;
         && Entries(u.s.installed) == Others(Entries(s.installed), doc.id) + {Entry(doc.id, doc.revision)}
         && u.s.rules == Owned(NotOwned(s.rules, doc.id), doc.rules, doc.id)
       else Entries(u.s.installed) == Entries(s.installed) && u.s.rules == s.rules && SameInstalledFiles(s, u.s)
  }

  /**
   Without failures, an update is all or nothing exactly unless it falls back on a backup that a longer one has spoiled:
   one of another revision cannot be installed, and something longer was lying under the name of the backup.
   */
  lemma UpdateWorks(env: Env, s: Store, path: Path)
    requires env.Valid() && env.AllWork() && Mirrored(env, s) && Incoming(path)
    ensures AllOrNothing(env, s, path, Update(env, s, path)) <==>
              (Outdated(env, s, path) && !Updatable(env, s, path) ==> BackupFits(s, Info(env, s, path).value.id))
  {
    hide UpdateInstall, Delete, Copy, HasId, Lookup, Mirrored, NoDup, Env.Valid, Owned, NotOwned, BackupFits,
         AllOrNothing;
    if Info(env, s, path).None? {
      UpdateRejected(env, s, path);
    } else {
      var doc := Info(env, s, path).value;
      LookupFinds(s.installed, doc.id);
      var prior := Lookup(s.installed, doc.id);
      if prior == Some(Entry(doc.id, doc.revision)) {
        UpdateRejected(env, s, path);
      } else if prior.None? {
        UpdateNewWorks(env, s, path);
      } else {
        UpdateOldWorks(env, s, path, prior.value);
      }
    }
  }

  lemma UpdateRejected(env: Env, s: Store, path: Path)
    requires Incoming(path)
    requires Info(env, s, path).None? ||
             var doc := Info(env, s, path).value; Lookup(s.installed, doc.id) == Some(Entry(doc.id, doc.revision))
    ensures AllOrNothing(env, s, path, Update(env, s, path))
  {
    hide Lookup;
  }

  lemma NoEmptyId(env: Env, s: Store)
    requires env.Valid() && Mirrored(env, s)
    ensures InstalledFile("") !in s.files
  {
  }

  lemma UpdateNewWorks(env: Env, s: Store, path: Path)
    requires env.Valid() && env.AllWork() && Mirrored(env, s) && Incoming(path)
    requires Info(env, s, path).Some? && Lookup(s.installed, Info(env, s, path).value.id) == None
    ensures AllOrNothing(env, s, path, Update(env, s, path))
  {
    NoEmptyId(env, s);
    hide Mirrored, HasId, Lookup, NoDup, Env.Valid, Owned, NotOwned, Others, Entries;
    var doc := Info(env, s, path).value;
    var b := Copy(env, s, InstalledFile(""), BACKUP);
    assert !b.ok && b.s == s.(calls := b.s.calls);
    LookupFinds(s.installed, doc.id);
    OtherFilesMirrored(env, s, b.s);
    InstallWorks(env, b.s, path);
    UnownedRules(env, s, doc.id);
    assert Acceptable(env, b.s, path) <==> Updatable(env, s, path);
    hide Copy, Acceptable, Updatable, Install, Info;
    var i := Install(env, b.s, path, true);
    if i.status == Ok {
      NoOthers(s.installed, doc.id);
      EntriesMore(s.installed, Entry(doc.id, doc.revision));
    } else {
      NothingInstalled(env, s, path, i, b.s.calls);
    }
  }

  lemma NothingInstalled(env: Env, s: Store, path: Path, i: Reply, calls: nat)
    requires Incoming(path)
    requires i == Install(env, s.(calls := calls), path, true) && i.status != Ok && !Updatable(env, s, path)
    requires i.s == s.(files := s.files - {path}, calls := i.s.calls)
    ensures AllOrNothing(env, s, path, UpdateInstall(env, s.(calls := calls), path, Nowhere))
  {
    hide Updatable;
    var u := UpdateInstall(env, s.(calls := calls), path, Nowhere);
    assert u.s == Discard(env, i.s, Nowhere, true) && u.status == i.status by { FailsNowhere(env, i.s); hide Install; }
    hide Install, UpdateInstall;
  }

  lemma UnownedRules(env: Env, s: Store, id: string)
    requires Mirrored(env, s)
    ensures !HasId(s.installed, id) ==> NoneOwned(s.rules, id) && NotOwned(s.rules, id) == s.rules
  {
  }

  lemma UpdateOldWorks(env: Env, s: Store, path: Path, prior: Entry)
    requires env.Valid() && env.AllWork() && Mirrored(env, s) && Incoming(path)
    requires Info(env, s, path).Some? && Lookup(s.installed, Info(env, s, path).value.id) == Some(prior)
    requires prior.id == Info(env, s, path).value.id && prior.revision != Info(env, s, path).value.revision
    requires prior in s.installed && HasId(s.installed, prior.id)
    ensures AllOrNothing(env, s, path, Update(env, s, path)) <==> Updatable(env, s, path) || BackupFits(s, prior.id)
  {
    hide Mirrored, HasId, Lookup, NoDup, Env.Valid, Owned, NotOwned, Erase, Delete, Copy, UpdateInstall, Updatable,
         AllOrNothing;
    hide Without, SameFile, Entries, Others, BackupFits;
    var id := prior.id;
    var b := Copy(env, s, InstalledFile(id), BACKUP);
    var c := Copy(env, b.s, InstalledFile(id), DeletingFile(id));
    CopiesWork(env, s, path, prior);
    NoEmptyId(env, s);
    var d := Delete(env, c.s, id);
    OtherFilesMirrored(env, s, c.s);
    DeleteWorks(env, c.s, id);
    assert Update(env, s, path) == UpdateInstall(env, d.s, path, BACKUP);
    WithoutMirrored(env, c.s, id, d.s.calls);
    WithoutFiles(s, path, id, c.s, d.s);
    EndUpdate(env, s, path, prior, d.s);
  }

  /** The backup copy and the copy to the deleting folder. */
  lemma CopiesWork(env: Env, s: Store, path: Path, prior: Entry)
    requires env.AllWork() && Mirrored(env, s) && Incoming(path) && path in s.files && prior in s.installed
    ensures var b := Copy(env, s, InstalledFile(prior.id), BACKUP);
            var c := Copy(env, b.s, InstalledFile(prior.id), DeletingFile(prior.id));
            && b.ok && c.ok && c.s == s.(files := c.s.files, calls := c.s.calls) && SameInstalledFiles(s, c.s)
            && InstalledFile(prior.id) in s.files && DeletingFile(prior.id) in c.s.files && BACKUP in c.s.files
            && (c.s.files[BACKUP] == s.files[InstalledFile(prior.id)] <==> BackupFits(s, prior.id))
            && path in c.s.files && c.s.files[path] == s.files[path]
  {
  }

  lemma WithoutFiles(s: Store, path: Path, id: string, c: Store, d: Store)
    requires path in s.files && Incoming(path) && SameInstalledFiles(s, c) && d == Without(c, id, d.calls)
    requires BACKUP in c.files && path in c.files && c.files[path] == s.files[path]
    ensures BACKUP in d.files && d.files[BACKUP] == c.files[BACKUP] && InstalledFile(id) !in d.files
    ensures path in d.files && d.files[path] == s.files[path]
    ensures forall other: Path | other.InstalledFile? && other.id != id :: SameFile(s, d, other)
    ensures d.installed == Erase(c.installed, id) && d.rules == NotOwned(c.rules, id)
  {
  }

  /** The rest of an update, from the store without the old revision and with its backup. */
  lemma EndUpdate(env: Env, s: Store, path: Path, prior: Entry, d: Store)
    requires env.Valid() && env.AllWork() && Mirrored(env, s) && Mirrored(env, d) && Incoming(path)
    requires Info(env, s, path).Some? && prior in s.installed && Lookup(s.installed, prior.id) == Some(prior)
    requires prior.id == Info(env, s, path).value.id && prior.revision != Info(env, s, path).value.revision
    requires InstalledFile(prior.id) in s.files && InstalledFile(prior.id) !in d.files && BACKUP in d.files
    requires path in d.files && d.files[path] == s.files[path]
    requires d.installed == Erase(s.installed, prior.id) && d.rules == NotOwned(s.rules, prior.id)
    requires forall other: Path | other.InstalledFile? && other.id != prior.id :: SameFile(s, d, other)
    ensures AllOrNothing(env, s, path, UpdateInstall(env, d, path, BACKUP)) <==>
              Updatable(env, s, path) || d.files[BACKUP] == s.files[InstalledFile(prior.id)]
  {
    var i := Install(env, d, path, true);
    EraseOthersOf(env, s, prior.id);
    AcceptableAfter(env, s, path, prior, d);
    InstallWorks(env, d, path);
    hide Mirrored, HasId, Lookup, NoDup, Env.Valid, Owned, NotOwned, Erase, Install, Acceptable, Updatable;
    hide AllOrNothing, SameFile, Entries, Others, UpdateInstall;
    if i.status == Ok {
      UpdateReplaces(env, s, path, prior, d, i);
    } else if d.files[BACKUP] == s.files[InstalledFile(prior.id)] {
      UpdateRestores(env, s, path, prior, d, i);
    } else {
      UpdateSpoils(env, s, path, prior, d, i);
    }
  }

  lemma UpdateReplaces(env: Env, s: Store, path: Path, prior: Entry, d: Store, i: Reply)
    requires Incoming(path) && i == Install(env, d, path, true) && i.status == Ok
    requires Info(env, s, path).Some? && prior.id == Info(env, s, path).value.id
    requires path in d.files && d.files[path] == s.files[path]
    requires Acceptable(env, d, path) && Updatable(env, s, path)
    requires i.s == WithDocument(d, path, Info(env, d, path).value, i.s.calls)
    requires Entries(d.installed) == Others(Entries(s.installed), prior.id) && d.rules == NotOwned(s.rules, prior.id)
    ensures AllOrNothing(env, s, path, UpdateInstall(env, d, path, BACKUP))
  {
    hide HasId, Lookup, NoDup, Owned, NotOwned, Erase, Install, Acceptable, Updatable, Others, Entries;
    var doc := Info(env, s, path).value;
    assert Info(env, d, path) == Some(doc);
    EntriesMore(d.installed, Entry(doc.id, doc.revision));
  }

  lemma UpdateRestores(env: Env, s: Store, path: Path, prior: Entry, d: Store, i: Reply)
    requires env.Valid() && env.AllWork() && Mirrored(env, s) && Mirrored(env, d) && Incoming(path)
    requires prior in s.installed
    requires i == Install(env, d, path, true) && i.status != Ok
    requires i.s == d.(files := d.files - {path}, calls := i.s.calls)
    requires InstalledFile(prior.id) in s.files && BACKUP in d.files
    requires d.files[BACKUP] == s.files[InstalledFile(prior.id)]
    requires !Updatable(env, s, path)
    requires Entries(d.installed) == Others(Entries(s.installed), prior.id) && !HasId(d.installed, prior.id)
    requires d.rules == NotOwned(s.rules, prior.id)
    requires forall other: Path | other.InstalledFile? && other.id != prior.id :: SameFile(s, d, other)
    ensures AllOrNothing(env, s, path, UpdateInstall(env, d, path, BACKUP))
  {
    PriorFile(env, s, prior);
    hide Mirrored, HasId, Lookup, NoDup, Env.Valid, Owned, NotOwned, Erase, Install, Acceptable, Updatable, Others,
         Entries;
    hide SameFile, AllOrNothing;
    var r := Install(env, i.s, BACKUP, true);
    assert UpdateInstall(env, d, path, BACKUP) == Updated(r.s, i.status, NotInstalled(r.status == Ok));
    DiscardedMirrored(env, d, i.s, path);
    BackupAcceptable(env, s, prior, i.s);
    InstallWorks(env, i.s, BACKUP);
    Restored(env, s, path, prior, d, r.s);
    NothingChanged(env, s, path, UpdateInstall(env, d, path, BACKUP));
  }

  /** Whatever the spoiled backup holds, the old file does not come back from it. */
  lemma UpdateSpoils(env: Env, s: Store, path: Path, prior: Entry, d: Store, i: Reply)
    requires env.Valid() && env.AllWork() && Mirrored(env, d) && Incoming(path)
    requires i == Install(env, d, path, true) && i.status != Ok
    requires i.s == d.(files := d.files - {path}, calls := i.s.calls)
    requires InstalledFile(prior.id) in s.files && InstalledFile(prior.id) !in d.files && BACKUP in d.files
    requires d.files[BACKUP] != s.files[InstalledFile(prior.id)]
    ensures !AllOrNothing(env, s, path, UpdateInstall(env, d, path, BACKUP))
  {
    hide Mirrored, HasId, Env.Valid, Owned, Install, Acceptable, Updatable, Others, Entries;
    var r := Install(env, i.s, BACKUP, true);
    assert UpdateInstall(env, d, path, BACKUP) == Updated(r.s, i.status, NotInstalled(r.status == Ok));
    DiscardedMirrored(env, d, i.s, path);
    InstallWorks(env, i.s, BACKUP);
    assert !SameFile(s, r.s, InstalledFile(prior.id));
  }

  lemma DiscardedMirrored(env: Env, s: Store, t: Store, path: Path)
    requires Mirrored(env, s) && !path.InstalledFile? && t == s.(files := s.files - {path}, calls := t.calls)
    ensures Mirrored(env, t)
  {
    hide Mirrored;
    OtherFilesMirrored(env, s, t);
  }

  lemma NothingChanged(env: Env, s: Store, path: Path, u: Updated)
    requires u.status != Ok && !Updatable(env, s, path)
    requires Entries(u.s.installed) == Entries(s.installed) && u.s.rules == s.rules && SameInstalledFiles(s, u.s)
    ensures AllOrNothing(env, s, path, u)
  {
  }

  /** Installing the backup puts entries, rules and the installed file back. */
  lemma Restored(env: Env, s: Store, path: Path, prior: Entry, d: Store, t: Store)
    requires Mirrored(env, s) && Incoming(path) && prior in s.installed && BACKUP in d.files
    requires Info(env, s, InstalledFile(prior.id)).Some? && d.files[BACKUP] == s.files[InstalledFile(prior.id)]
    requires var file := Info(env, s, InstalledFile(prior.id)).value;
             file.id == prior.id && file.revision == prior.revision
    requires t == WithDocument(d.(files := d.files - {path}), BACKUP, Info(env, s, InstalledFile(prior.id)).value,
                               t.calls)
    requires Entries(d.installed) == Others(Entries(s.installed), prior.id) && d.rules == NotOwned(s.rules, prior.id)
    requires forall other: Path | other.InstalledFile? && other.id != prior.id :: SameFile(s, d, other)
    ensures Entries(t.installed) == Entries(s.installed) && t.rules == s.rules && SameInstalledFiles(s, t)
  {
    hide Mirrored, Owned, NotOwned, Others, Entries;
    EntriesMore(d.installed, prior);
    OthersAndOneOf(env, s, prior);
    OwnedBack(env, s, prior);
    forall other: Path | other.InstalledFile? ensures SameFile(s, t, other) {
      assert other.id != prior.id ==> SameFile(s, d, other);
    }
  }

  lemma EraseOthersOf(env: Env, s: Store, id: string)
    requires Mirrored(env, s)
    ensures Entries(Erase(s.installed, id)) == Others(Entries(s.installed), id) && !HasId(Erase(s.installed, id), id)
  {
    EraseOthers(s.installed, id);
  }

  lemma OthersAndOneOf(env: Env, s: Store, prior: Entry)
    requires Mirrored(env, s) && prior in s.installed
    ensures Others(Entries(s.installed), prior.id) + {prior} == Entries(s.installed)
  {
  }

  lemma PriorFile(env: Env, s: Store, prior: Entry)
    requires Mirrored(env, s) && prior in s.installed
    ensures InstalledFile(prior.id) in s.files
    ensures var file := Info(env, s, InstalledFile(prior.id));
            file.Some? && file.value.id == prior.id && file.value.revision == prior.revision && NoDup(file.value.rules)
  {
  }

  lemma AcceptableAfter(env: Env, s: Store, path: Path, prior: Entry, d: Store)
    requires path in s.files && path in d.files && d.files[path] == s.files[path] && Info(env, s, path).Some?
    requires prior.id == Info(env, s, path).value.id && prior.revision != Info(env, s, path).value.revision
    requires Lookup(s.installed, prior.id) == Some(prior)
    requires !HasId(d.installed, prior.id) && d.rules == NotOwned(s.rules, prior.id)
    ensures Acceptable(env, d, path) <==> Updatable(env, s, path)
  {
  }

  lemma BackupAcceptable(env: Env, s: Store, prior: Entry, t: Store)
    requires Mirrored(env, s) && prior in s.installed && !HasId(t.installed, prior.id)
    requires t.rules == NotOwned(s.rules, prior.id) && Info(env, t, BACKUP) == Info(env, s, InstalledFile(prior.id))
    ensures Acceptable(env, t, BACKUP)
  {
  }

  lemma OwnedBack(env: Env, s: Store, prior: Entry)
    requires Mirrored(env, s) && prior in s.installed && Info(env, s, InstalledFile(prior.id)).Some?
    ensures Owned(NotOwned(s.rules, prior.id), Info(env, s, InstalledFile(prior.id)).value.rules, prior.id) == s.rules
  {
    assert RulesOf(env, s, prior.id) == Info(env, s, InstalledFile(prior.id)).value.rules;
    hide IdsDistinct, Filed, NoStrayFile, NoDup, HasId, Info;
  }

  // ---------- restarting ----------

  /** Some rule sets have been installed again; the rules of the others have no owner yet. */
  ghost predicate Rebuilt(s: Store, t: Store, done: set<string>) {
    && t.files == s.files && t.rules.Keys == s.rules.Keys && IdsDistinct(t.installed)
    && Entries(t.installed) == (set e | e in s.installed && e.id in done)
    && forall rule | rule in s.rules :: t.rules[rule] == if s.rules[rule] in done then s.rules[rule] else ""
  }

  lemma ReinstallOne(env: Env, s: Store, t: Store, done: set<string>, e: Entry)
    requires env.Valid() && env.AllWork() && Mirrored(env, s) && Rebuilt(s, t, done) && e in s.installed
    requires e.id !in done
    ensures Rebuilt(s, Install(env, t, InstalledFile(e.id), false).s, done + {e.id})
  {
    hide ParseRules, DeleteRules, Rollback, HasId, NoDup, Owned;
    var doc := Info(env, s, InstalledFile(e.id)).value;
    assert RulesOf(env, s, e.id) == doc.rules;
    NotRebuilt(s, t, done, e.id);
    ReparseWorks(env, t, doc.id, doc.rules, {});
    var r := Install(env, t, InstalledFile(e.id), false);
    assert (t.files - {InstalledFile(e.id)})[InstalledFile(e.id) := t.files[InstalledFile(e.id)]] == t.files;
    assert r.s == t.(installed := t.installed + [e], rules := Owned(t.rules, doc.rules, e.id), calls := r.s.calls);
    OwnersBack(env, s, t, done, e);
    AddedIds(t.installed, e);
    EntriesMore(t.installed, e);
    OneMoreDone(s, done, e);
  }

  lemma NotRebuilt(s: Store, t: Store, done: set<string>, id: string)
    requires Rebuilt(s, t, done) && id !in done
    ensures !HasId(t.installed, id)
  {
    forall e | e in t.installed ensures e.id != id {
      assert e in Entries(t.installed);
    }
  }

  lemma OneMoreDone(s: Store, done: set<string>, e: Entry)
    requires IdsDistinct(s.installed) && e in s.installed
    ensures (set x | x in s.installed && x.id in done + {e.id}) == (set x | x in s.installed && x.id in done) + {e}
  {
  }

  lemma OwnersBack(env: Env, s: Store, t: Store, done: set<string>, e: Entry)
    requires Mirrored(env, s) && Rebuilt(s, t, done) && e in s.installed
    ensures var rules := Owned(t.rules, RulesOf(env, s, e.id), e.id);
            && rules.Keys == s.rules.Keys
            && forall rule | rule in s.rules ::
                 rules[rule] == if s.rules[rule] in done + {e.id} then s.rules[rule] else ""
  {
    hide HasId, NoDup, IdsDistinct, Filed, NoStrayFile;
  }

  lemma {:induction false} ReinstallAll(env: Env, s: Store, t: Store, todo: seq<string>, done: set<string>)
    requires env.Valid() && env.AllWork() && Mirrored(env, s) && Rebuilt(s, t, done)
    requires NoDup(todo) && forall id | id in todo :: id !in done && HasId(s.installed, id)
    ensures Rebuilt(s, Reinstall(env, t, todo), done + set id | id in todo)
    decreases |todo|
  {
    hide Install, Rebuilt, Mirrored;
    if todo == [] {
      assert done + (set id | id in todo) == done;
    } else {
      var id, rest := todo[0], todo[1..];
      assert todo == [id] + rest;
      assert id in todo && HasId(s.installed, id);
      var i :| 0 <= i < |s.installed| && s.installed[i].id == id;
      ReinstallOne(env, s, t, done, s.installed[i]);
      ReinstallAll(env, s, Install(env, t, InstalledFile(id), false).s, rest, done + {id});
      assert done + {id} + (set x | x in rest) == done + set x | x in todo;
    }
  }

  /** A restart rebuilds the same entries, the same owners of rules and the same files. */
  lemma RestartRebuilds(env: Env, s: Store)
    requires env.Valid() && env.AllWork() && Mirrored(env, s)
    ensures var t := Restarted(env, s);
            && Entries(t.installed) == Entries(s.installed) && IdsDistinct(t.installed)
            && t.rules == s.rules && t.files == s.files
  {
    hide Reinstall, HasId, NoDup;
    var ids := set path | path in s.files && path.InstalledFile? :: path.id;
    var t := s.(installed := [], rules := map rule | rule in s.rules :: "");
    forall e | e in s.installed ensures HasId(s.installed, e.id) && e.id in ids {
      NotAmongIds(s.installed, e.id);
      assert InstalledFile(e.id) in s.files;
    }
    assert Rebuilt(s, t, {});
    ReinstallAll(env, s, t, env.list(ids), {});
    assert {} + (set id | id in env.list(ids)) == ids;
    hide Env.Valid, Mirrored, Restarted;
    assert Restarted(env, s) == Reinstall(env, t, env.list(ids));
    assert (set e | e in s.installed && e.id in ids) == Entries(s.installed);
    OwnersAmongIds(env, s, ids);
    AllRebuilt(s, Restarted(env, s), ids);
  }

  /** Whatever the list and the owners were, a restart starts from the files and the names of the rules. */
  lemma RestartForgets(env: Env, s: Store, t: Store)
    requires s.files == t.files && s.rules.Keys == t.rules.Keys && s.calls == t.calls
    ensures Restarted(env, s) == Restarted(env, t)
  {
    assert (map rule | rule in s.rules :: "") == (map rule | rule in t.rules :: "");
  }

  lemma AllRebuilt(s: Store, t: Store, ids: set<string>)
    requires Rebuilt(s, t, ids) && forall rule | rule in s.rules :: s.rules[rule] in ids
    ensures t.rules == s.rules && t.files == s.files && IdsDistinct(t.installed)
    ensures Entries(t.installed) == (set e | e in s.installed && e.id in ids)
  {
  }

  lemma OwnersAmongIds(env: Env, s: Store, ids: set<string>)
    requires Mirrored(env, s) && forall e | e in s.installed :: e.id in ids
    ensures forall rule | rule in s.rules :: s.rules[rule] in ids
  {
  }

  lemma SameEntriesMirrored(env: Env, s: Store, t: Store)
    requires Mirrored(env, s) && t.rules == s.rules && t.files == s.files
    requires IdsDistinct(t.installed) && Entries(t.installed) == Entries(s.installed)
    ensures Mirrored(env, t)
  {
    SameMembers(s.installed, t.installed);
    hide HasId, NoDup, IdsDistinct, Env.Valid, Entries;
  }

  lemma SameMembers(a: seq<Entry>, b: seq<Entry>)
    requires Entries(a) == Entries(b)
    ensures (forall e :: e in a <==> e in b) && (forall id :: HasId(a, id) <==> HasId(b, id))
  {
    assert forall e :: e in a <==> e in Entries(a);
    assert forall e :: e in b <==> e in Entries(b);
    forall id ensures HasId(a, id) <==> HasId(b, id) {
      hide HasId;
      NotAmongIds(a, id);
      NotAmongIds(b, id);
    }
  }

  // ---------- runs without failures ----------

  /** The tool puts files into the installing folder, under any name, and into the deleting one. */
  predicate Proper(request: Request) {
    match request
    case Put(path, text) => path.InstallingFile? || path.DeletingFile?
    case InstallFile(path) => path.InstallingFile?
    case UpdateFile(path) => path.InstallingFile?
    case _ => true
  }

  lemma CopyMirrored(env: Env, s: Store, from: Path, to: Path)
    requires Mirrored(env, s) && !to.InstalledFile?
    ensures Mirrored(env, Copy(env, s, from, to).s)
  {
    hide Mirrored;
    OtherFilesMirrored(env, s, Copy(env, s, from, to).s);
  }

  lemma RemoveMirrored(env: Env, s: Store, path: Path)
    requires Mirrored(env, s) && !path.InstalledFile?
    ensures Mirrored(env, Remove(env, s, path).s)
  {
    hide Mirrored;
    OtherFilesMirrored(env, s, Remove(env, s, path).s);
  }

  lemma InstallMirrored(env: Env, s: Store, path: Path)
    requires env.Valid() && env.AllWork() && Mirrored(env, s) && (path.InstallingFile? || path == Nowhere)
    ensures Mirrored(env, Install(env, s, path, true).s)
  {
    hide Mirrored, Install, Env.Valid, Acceptable;
    if path == Nowhere {
      FailsNowhere(env, s);
      RemoveMirrored(env, s, path);
    } else {
      InstallWorks(env, s, path);
      var r := Install(env, s, path, true);
      if r.status == Ok {
        WithDocumentMirrored(env, s, path, r.s.calls);
      } else {
        DiscardedMirrored(env, s, r.s, path);
      }
    }
  }

  lemma DeleteMirrored(env: Env, s: Store, id: string)
    requires env.Valid() && env.AllWork() && Mirrored(env, s)
    ensures Mirrored(env, Delete(env, s, id).s)
  {
    hide Mirrored, Delete, Env.Valid, HasId;
    if HasId(s.installed, id) {
      DeleteWorks(env, s, id);
      WithoutMirrored(env, s, id, Delete(env, s, id).s.calls);
    } else {
      NotDeletable(env, s, id);
    }
  }

  lemma NotDeletable(env: Env, s: Store, id: string)
    requires !HasId(s.installed, id)
    ensures Delete(env, s, id).s == s
  {
  }

  lemma UpdateInstallMirrored(env: Env, s: Store, path: Path, backup: Path)
    requires env.Valid() && env.AllWork() && Mirrored(env, s) && path.InstallingFile? && backup in {BACKUP, Nowhere}
    ensures Mirrored(env, UpdateInstall(env, s, path, backup).s)
  {
    hide Mirrored, Install, Remove, Env.Valid;
    var i := Install(env, s, path, true).s;
    InstallMirrored(env, s, path);
    InstallMirrored(env, i, backup);
    RemoveMirrored(env, i, backup);
  }

  /** Whatever lies under the name of the backup, and even if that is the file of the update. */
  lemma UpdateMirrored(env: Env, s: Store, path: Path)
    requires env.Valid() && env.AllWork() && Mirrored(env, s) && path.InstallingFile?
    ensures Mirrored(env, Update(env, s, path).s)
  {
    hide Mirrored, UpdateInstall, Delete, Copy, Remove, HasId, Lookup, Env.Valid;
    RemoveMirrored(env, s, path);
    if Info(env, s, path).Some? {
      var doc := Info(env, s, path).value;
      var name := if Lookup(s.installed, doc.id).Some? then doc.id else "";
      var b := Copy(env, s, InstalledFile(name), BACKUP);
      var c := Copy(env, b.s, InstalledFile(name), DeletingFile(name));
      var backup := if b.ok then BACKUP else Nowhere;
      CopyMirrored(env, s, InstalledFile(name), BACKUP);
      UpdateInstallMirrored(env, b.s, path, backup);
      CopyMirrored(env, b.s, InstalledFile(name), DeletingFile(name));
      DeleteMirrored(env, c.s, name);
      UpdateInstallMirrored(env, Delete(env, c.s, name).s, path, backup);
    }
  }

  lemma HandleMirrored(env: Env, s: Store, request: Request)
    requires env.Valid() && env.AllWork() && Mirrored(env, s) && Proper(request)
    ensures Mirrored(env, Handle(env, s, request))
  {
    hide Mirrored, Install, Delete, Update, Restarted, Env.Valid;
    match request {
      case Put(path, text) => OtherFilesMirrored(env, s, Handle(env, s, request));
      case InstallFile(path) => InstallMirrored(env, s, path);
      case DeleteId(id) => DeleteMirrored(env, s, id);
      case UpdateFile(path) => UpdateMirrored(env, s, path);
      case Restart =>
        RestartRebuilds(env, s);
        SameEntriesMirrored(env, s, Restarted(env, s));
    }
  }

  /** In every run without failures, of any requests in any order, the installed folder mirrors the store. */
  lemma {:induction false} AlwaysMirrored(env: Env, requests: seq<Request>)
    requires env.Valid() && env.AllWork() && forall request | request in requests :: Proper(request)
    ensures Mirrored(env, HandleAll(env, EMPTY, requests))
  {
    hide Mirrored, Handle, Env.Valid, Proper;
    if requests == [] {
      EmptyMirrored(env);
    } else {
      AlwaysMirrored(env, requests[..|requests| - 1]);
      HandleMirrored(env, HandleAll(env, EMPTY, requests[..|requests| - 1]), requests[|requests| - 1]);
    }
  }

  lemma EmptyMirrored(env: Env)
    ensures Mirrored(env, EMPTY)
  {
  }

  /** So a restart after any of these runs gives the same entries, rules and files. */
  lemma AlwaysRebuilt(env: Env, requests: seq<Request>)
    requires env.Valid() && env.AllWork() && forall request | request in requests :: Proper(request)
    ensures var s, t := HandleAll(env, EMPTY, requests), HandleAll(env, EMPTY, requests + [Restart]);
            Entries(t.installed) == Entries(s.installed) && t.rules == s.rules && t.files == s.files
  {
    hide Mirrored, Restarted, Env.Valid, Proper;
    AlwaysMirrored(env, requests);
    RestartRebuilds(env, HandleAll(env, EMPTY, requests));
    assert (requests + [Restart])[..|requests|] == requests;
  }

  // ---------- runs that leave the name of the backup free ----------

  ghost predicate LeavesFree(requests: seq<Request>) {
    forall request | request in requests :: !(request.Put? && request.path == BACKUP)
  }

  /** What the update makes there is gone when it is over. */
  lemma BackupGone(env: Env, s: Store, path: Path, backup: Path)
    requires env.Valid() && env.AllWork() && Mirrored(env, s) && Incoming(path) && backup in {BACKUP, Nowhere}
    requires backup == Nowhere ==> BACKUP !in s.files
    ensures BACKUP !in UpdateInstall(env, s, path, backup).s.files
  {
    hide Mirrored, Install, Env.Valid, Acceptable;
    var i := Install(env, s, path, true).s;
    InstallMirrored(env, s, path);
    InstallWorks(env, s, path);
    if backup == BACKUP { InstallWorks(env, i, backup); } else { FailsNowhere(env, i); }
  }

  lemma UpdateLeavesFree(env: Env, s: Store, path: Path)
    requires env.Valid() && env.AllWork() && Mirrored(env, s) && path.InstallingFile? && BACKUP !in s.files
    ensures BACKUP !in Update(env, s, path).s.files
  {
    NoEmptyId(env, s);
    hide Mirrored, UpdateInstall, Delete, HasId, Lookup, Env.Valid, Without;
    if NotYetInstalled(env, s, path) || Outdated(env, s, path) {
      var doc := Info(env, s, path).value;
      LookupFinds(s.installed, doc.id);
      if Lookup(s.installed, doc.id).None? {
        var b := Copy(env, s, InstalledFile(""), BACKUP);
        CopyMirrored(env, s, InstalledFile(""), BACKUP);
        BackupGone(env, b.s, path, Nowhere);
      } else {
        var prior := Lookup(s.installed, doc.id).value;
        var b := Copy(env, s, InstalledFile(doc.id), BACKUP);
        var c := Copy(env, b.s, InstalledFile(doc.id), DeletingFile(doc.id));
        CopiesWork(env, s, path, prior);
        hide Copy;
        OtherFilesMirrored(env, s, c.s);
        DeleteMirrored(env, c.s, doc.id);
        DeleteWorks(env, c.s, doc.id);
        BackupGone(env, Delete(env, c.s, doc.id).s, path, BACKUP);
      }
    }
  }

  /** In a run without failures that puts nothing under the name of the backup, nothing is ever left there. */
  lemma {:induction false} AlwaysFree(env: Env, requests: seq<Request>)
    requires env.Valid() && env.AllWork() && LeavesFree(requests)
    requires forall request | request in requests :: Proper(request)
    ensures BACKUP !in HandleAll(env, EMPTY, requests).files
  {
    hide Mirrored, Install, Delete, Update, Restarted, Env.Valid, Acceptable;
    if requests != [] {
      var s := HandleAll(env, EMPTY, requests[..|requests| - 1]);
      AlwaysFree(env, requests[..|requests| - 1]);
      AlwaysMirrored(env, requests[..|requests| - 1]);
      var request := requests[|requests| - 1];
      assert request in requests;
      match request {
        case Put(path, text) =>
        case InstallFile(path) => InstallWorks(env, s, path);
        case DeleteId(id) => if HasId(s.installed, id) { DeleteWorks(env, s, id); } else { NotDeletable(env, s, id); }
        case UpdateFile(path) => UpdateLeavesFree(env, s, path);
        case Restart => RestartRebuilds(env, s);
      }
    }
  }

  /** So there every update is all or nothing, with its entries, rules and installed files. */
  lemma AlwaysAllOrNothing(env: Env, requests: seq<Request>, path: Path)
    requires env.Valid() && env.AllWork() && LeavesFree(requests) && Incoming(path)
    requires forall request | request in requests :: Proper(request)
    ensures var s := HandleAll(env, EMPTY, requests); AllOrNothing(env, s, path, Update(env, s, path))
  {
    hide Mirrored, AllOrNothing, Update, Env.Valid, HandleAll, Proper;
    AlwaysMirrored(env, requests);
    AlwaysFree(env, requests);
    UpdateWorks(env, HandleAll(env, EMPTY, requests), path);
  }
}
