/**
 What an update makes of the installed rule sets, whatever calls fail: all or nothing, up to exactly which of them.
 */
module RuleSetUpdates {
  import opened Prelude
  import opened CmdHandler
  import opened RuleSetStore

  // ---------- which files change ----------

  ghost predicate SameFile(s: Store, t: Store, path: Path) {
    (path in s.files <==> path in t.files) && (path in s.files ==> t.files[path] == s.files[path])
  }

  lemma InstallKeepsFile(env: Env, s: Store, path: Path, other: Path)
    requires other != path && !other.InstalledFile?
    ensures SameFile(s, Install(env, s, path, true).s, other)
  {
    hide ParseRules, DeleteRules, Rollback;
    if Info(env, s, path).Some? {
      var doc := Info(env, s, path).value;
      ParseKeepsRest(env, s, doc.id, doc.rules, {}, true);
      var p := ParseRules(env, s, doc.id, doc.rules, {}, true);
      RollbackOnlyRules(env, p.s, doc.id);
      var m := Move(env, p.s, path, InstalledFile(doc.id), true);
      RollbackOnlyRules(env, Discard(env, m.s, path, true), doc.id);
    }
  }

  lemma ParseKeepsRest(env: Env, s: Store, id: string, todo: seq<string>, seen: set<string>, strict: bool)
    ensures var p := ParseRules(env, s, id, todo, seen, strict); p.s == s.(rules := p.s.rules, calls := p.s.calls)
  {
    ParseRulesOwners(env, s, id, todo, seen, strict, (set rule | rule in s.rules :: s.rules[rule]) + {id});
  }

  lemma DeleteKeepsFile(env: Env, s: Store, id: string, other: Path)
    requires other.InstallingFile?
    ensures SameFile(s, Delete(env, s, id).s, other)
  {
    DeleteRulesShrinks(env, s, env.list(s.rules.Keys), id, DeleteRule, true);
    hide DeleteRules;
  }
  // ---------- how far an update gets ----------

  /** The file of an update: the tool gives it a name of its own, never that of the backup. */
  predicate Incoming(path: Path) { path.InstallingFile? && path != BACKUP }

  /** The rule set of the file is not installed. */
  predicate NotYetInstalled(env: Env, s: Store, path: Path) {
    Info(env, s, path).Some? && Lookup(s.installed, Info(env, s, path).value.id).None?
  }

  /** The rule set of the file is installed with another revision. */
  predicate Outdated(env: Env, s: Store, path: Path) {
    Info(env, s, path).Some? &&
    var doc := Info(env, s, path).value;
    Lookup(s.installed, doc.id).Some? && Lookup(s.installed, doc.id) != Some(Entry(doc.id, doc.revision))
  }

  /** The copy of the old file to the deleting folder, after the backup. */
  function OldCopied(env: Env, s: Store, id: string): Done {
    Copy(env, Copy(env, s, InstalledFile(id), BACKUP).s, InstalledFile(id), DeletingFile(id))
  }

  /** The deletion of the old rules after that. */
  function OldRulesDeleted(env: Env, s: Store, id: string): Done {
    var c := OldCopied(env, s, id).s;
    DeleteRules(env, c, env.list(c.rules.Keys), id, DeleteRule, true)
  }

  /** The update comes to the removal of the old files. */
  predicate Removes(env: Env, s: Store, path: Path) {
    Outdated(env, s, path) &&
    var id := Info(env, s, path).value.id;
    OldCopied(env, s, id).ok && OldRulesDeleted(env, s, id).ok
  }

  predicate BothRemovalsWork(env: Env, calls: nat) {
    env.outcome(RemoveFile, calls) == Works && env.outcome(RemoveFile, calls + 1) == Works
  }

  /** One of the two removals fails. */
  predicate RemovalsFail(env: Env, s: Store, path: Path) {
    Removes(env, s, path) && !BothRemovalsWork(env, OldRulesDeleted(env, s, Info(env, s, path).value.id).s.calls)
  }

  predicate RemovalsWork(env: Env, s: Store, path: Path) {
    Removes(env, s, path) && BothRemovalsWork(env, OldRulesDeleted(env, s, Info(env, s, path).value.id).s.calls)
  }

  /** The new file is tried. */
  predicate Tries(env: Env, s: Store, path: Path) { NotYetInstalled(env, s, path) || RemovalsWork(env, s, path) }

  /** The installed file that is backed up; where there is none, the code asks for one without a name. */
  function NameOf(env: Env, s: Store, path: Path): string {
    match Info(env, s, path)
    case Some(doc) => if Lookup(s.installed, doc.id).Some? then doc.id else ""
    case None => ""
  }

  /** The store in which the new file is tried. */
  function Ready(env: Env, s: Store, path: Path): Store {
    var name := NameOf(env, s, path);
    if name == "" then Copy(env, s, InstalledFile(name), BACKUP).s else Delete(env, OldCopied(env, s, name).s, name).s
  }

  /** What the backup says, if it is made: the installed file over what was lying there. */
  function Backup(env: Env, s: Store, name: string): Option<Document> {
    var file := InstalledFile(name);
    if file in s.files && env.outcome(CopyFile, s.calls) == Works then
      env.parse(Overwritten(s.files[file], if BACKUP in s.files then s.files[BACKUP] else ""))
    else None
  }

  /** In the store as it is, the rules of the document can be created and its file be moved to the installed ones. */
  predicate CanInstall(env: Env, s: Store, doc: Document) {
    var p := ParseRules(env, s, doc.id, doc.rules, {}, true);
    p.ok && env.outcome(CopyFile, p.s.calls) == Works && env.outcome(RemoveFile, p.s.calls + 1) == Works
  }

  /** A file of the installing folder is installed exactly if it is a document of a new rule set and nothing fails. */
  lemma InstallsIff(env: Env, s: Store, path: Path)
    requires path.InstallingFile?
    ensures Install(env, s, path, true).status == Ok <==>
              && Info(env, s, path).Some? && !HasId(s.installed, Info(env, s, path).value.id)
              && CanInstall(env, s, Info(env, s, path).value)
  {
    hide DeleteRules, ParseRules, HasId, Rollback;
    if Info(env, s, path).Some? {
      var doc := Info(env, s, path).value;
      ParseKeepsRest(env, s, doc.id, doc.rules, {}, true);
    }
  }

  lemma NonEmptyId(env: Env, s: Store, path: Path)
    requires env.Valid() && Info(env, s, path).Some?
    ensures Info(env, s, path).value.id != ""
  {
  }

  /** A deletion erases the entry or leaves the list; it reports no success without erasing. */
  lemma DeleteEntries(env: Env, s: Store, id: string)
    requires IdsDistinct(s.installed) && HasId(s.installed, id)
    ensures var r := Delete(env, s, id);
            && r.s.installed == (if HasId(r.s.installed, id) then s.installed else Erase(s.installed, id))
            && (r.status == Ok ==> r.s.installed == Erase(s.installed, id) && !HasId(r.s.installed, id))
  {
    DeleteRulesShrinks(env, s, env.list(s.rules.Keys), id, DeleteRule, true);
    EraseOthers(s.installed, id);
    hide DeleteRules, Erase, HasId;
  }

  /** The deletion erases exactly if the rules are deleted, and reports success exactly if the removals work, too. */
  lemma OldDeletion(env: Env, s: Store, id: string)
    requires IdsDistinct(s.installed) && HasId(s.installed, id) && OldCopied(env, s, id).ok
    ensures var c, dr := OldCopied(env, s, id).s, OldRulesDeleted(env, s, id);
            var d := Delete(env, c, id);
            && HasId(c.installed, id) && (HasId(d.s.installed, id) <==> !dr.ok)
            && (d.status == Ok <==> dr.ok && BothRemovalsWork(env, dr.s.calls))
  {
    var c := OldCopied(env, s, id).s;
    DeleteRulesShrinks(env, c, env.list(c.rules.Keys), id, DeleteRule, true);
    hide DeleteRules, Erase, HasId;
    EraseOthers(s.installed, id);
  }

  /** The update ends with an installation exactly if it tries the new file, and before that by where it gives up. */
  lemma UpdateTries(env: Env, s: Store, path: Path)
    requires env.Valid() && IdsDistinct(s.installed)
    ensures var u, backup := Update(env, s, path), Copy(env, s, InstalledFile(NameOf(env, s, path)), BACKUP);
            if Tries(env, s, path) then
              u == UpdateInstall(env, Ready(env, s, path), path, if backup.ok then BACKUP else Nowhere)
            else
              && u.status != Ok && u.stage in {Rejected, NotDeleted, Erased}
              && (u.stage == Erased <==> RemovalsFail(env, s, path))
              && (u.stage == Rejected || Outdated(env, s, path))
  {
    hide DeleteRules, UpdateInstall, Erase, Lookup, IdsDistinct, HasId, Env.Valid, Delete, Copy, BothRemovalsWork;
    if Info(env, s, path).Some? {
      var id := Info(env, s, path).value.id;
      NonEmptyId(env, s, path);
      LookupFinds(s.installed, id);
      if Outdated(env, s, path) && OldCopied(env, s, id).ok {
        OldDeletion(env, s, id);
      }
    }
  }

  /** The old rule set is gone before the new one is tried exactly if one of the two removals of its files fails. */
  lemma ErasedIff(env: Env, s: Store, path: Path)
    requires env.Valid() && IdsDistinct(s.installed)
    ensures Update(env, s, path).stage == Erased <==> RemovalsFail(env, s, path)
  {
    hide Update, Ready, Copy, Removes, BothRemovalsWork, IdsDistinct, Env.Valid, Install;
    UpdateTries(env, s, path);
    if NotYetInstalled(env, s, path) { NotOutdated(env, s, path); }
  }

  lemma NotOutdated(env: Env, s: Store, path: Path)
    requires NotYetInstalled(env, s, path)
    ensures !Removes(env, s, path)
  {
  }

  /** It does happen: removing a file fails, the rest works, and the only entry is gone with nothing in its place. */
  lemma ErasedByOneFailure(list: set<string> -> seq<string>) returns (env: Env, s: Store, path: Path)
    requires forall names :: NoDup(list(names)) && forall name :: name in list(names) <==> name in names
    ensures env.Valid() && Incoming(path) && s.installed == [Entry("a", "1")] && InstalledFile("a") in s.files
    ensures forall op, n | op != RemoveFile :: env.outcome(op, n) == Works
    ensures Update(env, s, path).stage == Erased && Update(env, s, path).s.installed == []
  {
    path := InstallingFile("u_a.xml");
    var parse := (text: string) =>
      if text == "old" then Some(Document("a", "1", []))
      else if text == "new" then Some(Document("a", "2", []))
      else None;
    env := Env(parse, (op: Op, n: nat) => if op == RemoveFile then Fails else Works, list);
    s := Store([Entry("a", "1")], map[], map[InstalledFile("a") := "old", path := "new"], 0);
    assert Lookup(s.installed, "a") == Some(Entry("a", "1"));
    var c := OldCopied(env, s, "a");
    NothingListed(env, c.s.rules.Keys);
    assert HasId(s.installed, "a") by { assert s.installed[0].id == "a"; }
    OldDeletion(env, s, "a");
    ErasedIff(env, s, path);
    assert Update(env, s, path).s.installed == Erase(s.installed, "a");
  }

  lemma NothingListed(env: Env, names: set<string>)
    requires env.Valid()
    ensures |env.list(names)| > 0 ==> env.list(names)[0] in names
  {
    assert forall name :: name in env.list(names) <==> name in names;
  }

  // ---------- the store in which the new file is tried ----------

  lemma {:induction false} EraseNothing(installed: seq<Entry>, id: string)
    requires !HasId(installed, id)
    ensures Erase(installed, id) == installed
  {
    if installed != [] {
      assert forall i | 0 <= i < |installed[1..]| :: installed[1..][i] == installed[i + 1];
      assert installed[0].id != id;
      EraseNothing(installed[1..], id);
    }
  }

  /** The identifier is not installed, its file is still there, and the backup says what it said when it was made. */
  lemma ReadyToTry(env: Env, s: Store, path: Path)
    requires env.Valid() && IdsDistinct(s.installed) && Incoming(path) && Tries(env, s, path)
    ensures var doc, r, name := Info(env, s, path).value, Ready(env, s, path), NameOf(env, s, path);
            && r.installed == Erase(s.installed, doc.id) && !HasId(r.installed, doc.id)
            && Info(env, r, path) == Some(doc)
            && if Copy(env, s, InstalledFile(name), BACKUP).ok then Info(env, r, BACKUP) == Backup(env, s, name)
               else Backup(env, s, name).None?
  {
    hide DeleteRules, Erase, Lookup, IdsDistinct, HasId, Env.Valid, Delete, BothRemovalsWork;
    var id := Info(env, s, path).value.id;
    NonEmptyId(env, s, path);
    LookupFinds(s.installed, id);
    if NotYetInstalled(env, s, path) {
      EraseNothing(s.installed, id);
    } else {
      OldDeletion(env, s, id);
      var c := OldCopied(env, s, id).s;
      DeleteEntries(env, c, id);
      DeleteKeepsFile(env, c, id, path);
      DeleteKeepsFile(env, c, id, BACKUP);
    }
  }

  /** An installation with a backup, from a store without the document's identifier. */
  lemma UpdateInstallEntries(env: Env, s: Store, path: Path, backup: Path)
    requires Incoming(path) && backup in {BACKUP, Nowhere} && Info(env, s, path).Some?
    ensures var u := UpdateInstall(env, s, path, backup);
            && (u.status == Ok <==> u.stage == Replaced)
            && match u.stage
               case Replaced =>
                 Entries(u.s.installed) ==
                 Entries(s.installed) + {Entry(Info(env, s, path).value.id, Info(env, s, path).value.revision)}
               case NotInstalled(restored) =>
                 if restored then
                   && backup == BACKUP && Info(env, s, BACKUP).Some?
                   && Entries(u.s.installed) ==
                      Entries(s.installed) + {Entry(Info(env, s, BACKUP).value.id, Info(env, s, BACKUP).value.revision)}
                 else u.s.installed == s.installed
               case _ => false
  {
    hide Install, HasId, Entries;
    var i := Install(env, s, path, true);
    InstallEntries(env, s, path, true);
    InstallEntries(env, i.s, backup, true);
    InstallKeepsFile(env, s, path, BACKUP);
    forall e ensures Entries(s.installed + [e]) == Entries(s.installed) + {e} { EntriesMore(s.installed, e); }
  }

  lemma EntriesMore(installed: seq<Entry>, e: Entry)
    ensures Entries(installed + [e]) == Entries(installed) + {e}
  {
  }

  // ---------- an update, whatever fails ----------

  /** The update succeeds exactly if it tries the new file and this is installed then. */
  lemma SucceedsIff(env: Env, s: Store, path: Path)
    requires env.Valid() && IdsDistinct(s.installed) && Incoming(path)
    ensures Update(env, s, path).status == Ok <==>
              Tries(env, s, path) && CanInstall(env, Ready(env, s, path), Info(env, s, path).value)
  {
    hide Update, Install, CanInstall, Ready, Copy, Tries, Backup, Erase, HasId, IdsDistinct, Env.Valid;
    UpdateTries(env, s, path);
    if Tries(env, s, path) {
      ReadyToTry(env, s, path);
      InstallsIff(env, Ready(env, s, path), path);
    }
  }

  /**
   The new file was tried, and the backup is a document that is installed again after it: its rule set is not among the
   other entries, its rules can be created, and its file can be moved back.
   */
  predicate Restores(env: Env, s: Store, path: Path) {
    Tries(env, s, path) && Backup(env, s, NameOf(env, s, path)).Some? &&
    var back := Backup(env, s, NameOf(env, s, path)).value;
    && !HasId(Erase(s.installed, Info(env, s, path).value.id), back.id)
    && CanInstall(env, Install(env, Ready(env, s, path), path, true).s, back)
  }

  /** After the new file has failed, the backup is installed exactly if it can be. */
  lemma RestoredIff(env: Env, s: Store, path: Path)
    requires env.Valid() && IdsDistinct(s.installed) && Incoming(path) && Tries(env, s, path)
    requires Update(env, s, path).status != Ok
    ensures Update(env, s, path).stage == NotInstalled(Restores(env, s, path))
  {
    hide Update, Install, CanInstall, Ready, Copy, Tries, Backup, Erase, HasId, IdsDistinct, Env.Valid;
    UpdateTries(env, s, path);
    ReadyToTry(env, s, path);
    var r := Ready(env, s, path);
    var i := Install(env, r, path, true).s;
    InstallEntries(env, r, path, true);
    InstallKeepsFile(env, r, path, BACKUP);
    InstallsIff(env, i, BACKUP);
    FailsNowhere(env, i);
  }

  lemma FailsNowhere(env: Env, s: Store)
    ensures Install(env, s, Nowhere, true) == Reply(Discard(env, s, Nowhere, true), ParseFailed)
  {
  }

  /** What the update of `doc` with its backup makes of the entries, stage by stage. */
  ghost predicate EntriesAfter(before: set<Entry>, doc: Document, backup: Option<Document>, stage: Stage,
                               after: set<Entry>)
  {
    match stage
    case Rejected => after == before
    case NotDeleted => after == before
    case Erased => after == Others(before, doc.id) != before
    case NotInstalled(restored) =>
      if restored then backup.Some? && after == Others(before, doc.id) + {Entry(backup.value.id, backup.value.revision)}
      else after == Others(before, doc.id)
    case Replaced => after == Others(before, doc.id) + {Entry(doc.id, doc.revision)}
  }

  /** Whatever fails, the entries of other rule sets stay, and the stage tells what else is there. */
  lemma UpdateByStage(env: Env, s: Store, path: Path)
    requires env.Valid() && IdsDistinct(s.installed) && Incoming(path)
    ensures var u := Update(env, s, path);
            && (u.status == Ok <==> u.stage == Replaced)
            && (Info(env, s, path).None? ==> u.stage == Rejected && u.s.installed == s.installed)
            && (Info(env, s, path).Some? ==>
                  EntriesAfter(Entries(s.installed), Info(env, s, path).value, Backup(env, s, NameOf(env, s, path)),
                               u.stage, Entries(u.s.installed)))
  {
    hide UpdateInstall, Install, Delete, Copy, Remove, HasId, Erase, Lookup, IdsDistinct, Removes, Env.Valid, Ready,
         Backup;
    RemovalOnlyFiles(env, s, path, true);
    UpdateTries(env, s, path);
    if Tries(env, s, path) {
      EntriesAfterTry(env, s, path);
    } else if Outdated(env, s, path) {
      EntriesBeforeTry(env, s, path);
    }
  }

  lemma EntriesAfterTry(env: Env, s: Store, path: Path)
    requires env.Valid() && IdsDistinct(s.installed) && Incoming(path) && Tries(env, s, path)
    ensures var u := Update(env, s, path);
            && (u.status == Ok <==> u.stage == Replaced)
            && EntriesAfter(Entries(s.installed), Info(env, s, path).value, Backup(env, s, NameOf(env, s, path)),
                            u.stage, Entries(u.s.installed))
  {
    var doc := Info(env, s, path).value;
    hide Update, UpdateInstall, Ready, Copy, Tries, Backup, Erase, HasId, IdsDistinct, Env.Valid, Entries, Others;
    UpdateTries(env, s, path);
    ReadyToTry(env, s, path);
    EraseOthers(s.installed, doc.id);
    UpdateInstallEntries(env, Ready(env, s, path), path, BACKUP);
    UpdateInstallEntries(env, Ready(env, s, path), path, Nowhere);
  }

  lemma EntriesBeforeTry(env: Env, s: Store, path: Path)
    requires env.Valid() && IdsDistinct(s.installed) && Outdated(env, s, path) && !Tries(env, s, path)
    ensures EntriesAfter(Entries(s.installed), Info(env, s, path).value, None, Update(env, s, path).stage,
                         Entries(Update(env, s, path).s.installed))
  {
    hide UpdateInstall, Delete, Erase, HasId, Lookup, IdsDistinct, DeleteRules, BothRemovalsWork, Entries, Others,
         Env.Valid;
    var id := Info(env, s, path).value.id;
    NonEmptyId(env, s, path);
    LookupFinds(s.installed, id);
    EraseOthers(s.installed, id);
    NoOthers(s.installed, id);
    if OldCopied(env, s, id).ok {
      OldDeletion(env, s, id);
      DeleteEntries(env, OldCopied(env, s, id).s, id);
    }
  }

  lemma NoOthers(installed: seq<Entry>, id: string)
    ensures Others(Entries(installed), id) == Entries(installed) <==> !HasId(installed, id)
  {
    if i :| 0 <= i < |installed| && installed[i].id == id { assert installed[i] in Entries(installed); }
  }

  lemma OthersAndOne(installed: seq<Entry>, prior: Entry)
    requires IdsDistinct(installed) && prior in installed
    ensures Others(Entries(installed), prior.id) + {prior} == Entries(installed)
  {
  }

  /** What is put back is the old entry, with its revision. */
  predicate PutsBack(env: Env, s: Store, path: Path) {
    Restores(env, s, path) &&
    var back := Backup(env, s, NameOf(env, s, path)).value;
    Lookup(s.installed, Info(env, s, path).value.id) == Some(Entry(back.id, back.revision))
  }

  /**
   An update that fails leaves the entries as they were exactly unless a removal of the old files failed, or the new
   file was tried and then the old entry was not put back, or something was put where there had been no entry.
   */
  lemma UpdateAllOrNothing(env: Env, s: Store, path: Path)
    requires env.Valid() && IdsDistinct(s.installed) && Incoming(path)
    requires Update(env, s, path).status != Ok
    ensures Entries(Update(env, s, path).s.installed) == Entries(s.installed) <==>
              && !RemovalsFail(env, s, path)
              && (RemovalsWork(env, s, path) ==> PutsBack(env, s, path))
              && (NotYetInstalled(env, s, path) ==> !Restores(env, s, path))
  {
    hide Update, HasId, Erase, IdsDistinct, Removes, BothRemovalsWork, CanInstall, Others, Entries, Env.Valid, Backup,
         Lookup, Install;
    UpdateByStage(env, s, path);
    ErasedIff(env, s, path);
    UpdateTries(env, s, path);
    if Tries(env, s, path) {
      var id := Info(env, s, path).value.id;
      RestoredIff(env, s, path);
      LookupFinds(s.installed, id);
      NoOthers(s.installed, id);
      if NotYetInstalled(env, s, path) {
        NotOutdated(env, s, path);
        EraseNothing(s.installed, id);
      }
      if Restores(env, s, path) {
        var back := Backup(env, s, NameOf(env, s, path)).value;
        SameWithIff(s.installed, id, Entry(back.id, back.revision));
      }
    }
  }

  /** The other entries and one more are the same as before exactly if it is the one that is missing. */
  lemma SameWithIff(installed: seq<Entry>, id: string, e: Entry)
    requires IdsDistinct(installed) && !HasId(Erase(installed, id), e.id)
    ensures Others(Entries(installed), id) + {e} == Entries(installed) <==> Lookup(installed, id) == Some(e)
  {
    hide Erase, HasId, IdsDistinct, Lookup;
    LookupFinds(installed, id);
    match Lookup(installed, id) {
      case Some(prior) => OthersAndOne(installed, prior);
      case None =>
        NoOthers(installed, id);
        EraseNothing(installed, id);
        NoOthers(installed, e.id);
    }
  }

  /** Nothing longer than the installed file lies under the name of the backup. */
  predicate BackupFits(s: Store, id: string) {
    InstalledFile(id) in s.files && BACKUP in s.files ==> |s.files[BACKUP]| <= |s.files[InstalledFile(id)]|
  }

  /** The backup is the old file exactly if no longer backup was lying there. */
  lemma BackupIsExactIff(env: Env, s: Store, id: string)
    requires Copy(env, s, InstalledFile(id), BACKUP).ok
    ensures Copy(env, s, InstalledFile(id), BACKUP).s.files[BACKUP] == s.files[InstalledFile(id)] <==> BackupFits(s, id)
  {
  }

  /** The installed file says what its entry says, and its backup is exact if it is made. */
  predicate BackupSafe(env: Env, s: Store, e: Entry) {
    var file := InstalledFile(e.id);
    && Info(env, s, file).Some? && Info(env, s, file).value.id == e.id
    && Info(env, s, file).value.revision == e.revision
    && BackupFits(s, e.id)
  }

  /** Then the old entry is put back exactly if the backup is made and the old file can be installed again. */
  lemma PutsBackIff(env: Env, s: Store, path: Path, prior: Entry)
    requires env.Valid() && IdsDistinct(s.installed) && RemovalsWork(env, s, path)
    requires Lookup(s.installed, Info(env, s, path).value.id) == Some(prior) && BackupSafe(env, s, prior)
    ensures PutsBack(env, s, path) <==>
              && env.outcome(CopyFile, s.calls) == Works
              && CanInstall(env, Install(env, Ready(env, s, path), path, true).s,
                            Info(env, s, InstalledFile(prior.id)).value)
  {
    hide Install, Ready, CanInstall, HasId, Erase, IdsDistinct, Env.Valid, Lookup, OldCopied, OldRulesDeleted;
    LookupFinds(s.installed, Info(env, s, path).value.id);
    EraseOthers(s.installed, prior.id);
  }

  /** An update that gives up at the deletion leaves its backup there. */
  lemma BackupLeftBehind(env: Env, s: Store, path: Path)
    requires Info(env, s, path).Some? && Copy(env, s, InstalledFile(Info(env, s, path).value.id), BACKUP).ok
    requires Update(env, s, path).stage in {NotDeleted, Erased}
    ensures BACKUP in Update(env, s, path).s.files
  {
    hide Delete, Install, Lookup, HasId;
    var id := Info(env, s, path).value.id;
    var b := Copy(env, s, InstalledFile(id), BACKUP);
    var c := Copy(env, b.s, InstalledFile(id), DeletingFile(id));
    DeleteKeepsFile(env, c.s, id, BACKUP);
  }
}
