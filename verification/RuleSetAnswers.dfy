/** What each request answers, and what its calls leave, for every outcome of every call. */
module RuleSetAnswers {
  import opened Prelude
  import opened CmdHandler
  import opened RuleSetStore
  import opened RuleSetUpdates
  import opened RuleSetRestart

  predicate CallWorks(env: Env, op: Op, call: nat) { env.outcome(op, call) == Works }

  // ---------- the file system ----------

  /** A copy puts the text over what was there and keeps what is longer; half way, it leaves the old text or none. */
  lemma CopyIff(env: Env, s: Store, from: Path, to: Path)
    ensures var c := Copy(env, s, from, to);
            && (c.ok <==> from in s.files && CallWorks(env, CopyFile, s.calls))
            && c.s == s.(files := c.s.files, calls := s.calls + 1)
            && (forall path | path != to :: SameFile(s, c.s, path))
            && (c.ok ==>
                  && to in c.s.files && |c.s.files[to]| >= |s.files[from]|
                  && c.s.files[to][..|s.files[from]|] == s.files[from]
                  && if to in s.files && |s.files[to]| > |s.files[from]| then
                       c.s.files[to][|s.files[from]|..] == s.files[to][|s.files[from]|..]
                     else c.s.files[to] == s.files[from])
            && (!c.ok ==>
                  if to in s.files || from !in s.files || env.outcome(CopyFile, s.calls) == Fails then
                    c.s.files == s.files
                  else c.s.files == s.files[to := ""])
  {
  }

  lemma RemoveIff(env: Env, s: Store, path: Path)
    ensures var r := Remove(env, s, path);
            && (r.ok <==> path in s.files && CallWorks(env, RemoveFile, s.calls))
            && r.s == s.(files := r.s.files, calls := s.calls + 1)
            && (forall other | other != path || !r.ok :: SameFile(s, r.s, other)) && (r.ok ==> path !in r.s.files)
  {
  }

  /** A move takes the text along and leaves nothing behind; with a change of owner it goes over what was there. */
  lemma MoveIff(env: Env, s: Store, from: Path, to: Path, changeUser: bool)
    requires from != to || !changeUser
    ensures var m := Move(env, s, from, to, changeUser);
            && (m.ok <==>
                  && from in s.files
                  && if changeUser then CallWorks(env, CopyFile, s.calls) && CallWorks(env, RemoveFile, s.calls + 1)
                     else CallWorks(env, RenameFile, s.calls))
            && (m.ok ==>
                  && to in m.s.files && (from in m.s.files <==> from == to)
                  && |s.files[from]| <= |m.s.files[to]| && m.s.files[to][..|s.files[from]|] == s.files[from]
                  && ((changeUser && to in s.files) || |m.s.files[to]| == |s.files[from]|))
            && forall other | other != from && other != to :: SameFile(s, m.s, other)
  {
  }

  // ---------- creating rules ----------

  /** The rule is there already: from this document, or before, if that counts. */
  predicate Exists(s: Store, todo: seq<string>, k: nat, seen: set<string>, strict: bool)
    requires k < |todo|
  {
    (strict && todo[k] in s.rules) || todo[k] in seen || todo[k] in todo[..k]
  }

  /** The k-th rule of a document cannot be created. */
  predicate Refused(env: Env, s: Store, todo: seq<string>, k: nat, seen: set<string>, strict: bool)
    requires k < |todo|
  {
    || !CallWorks(env, CreateRule, s.calls + 2 * k) || !CallWorks(env, SetTargets, s.calls + 2 * k + 1)
    || Exists(s, todo, k, seen, strict)
  }

  ghost predicate NoneRefused(env: Env, s: Store, todo: seq<string>, seen: set<string>, strict: bool) {
    forall k: nat | k < |todo| :: !Refused(env, s, todo, k, seen, strict)
  }

  ghost predicate FirstRefused(env: Env, s: Store, todo: seq<string>, j: nat, seen: set<string>, strict: bool) {
    j < |todo| && Refused(env, s, todo, j, seen, strict) &&
    forall k: nat | k < j :: !Refused(env, s, todo, k, seen, strict)
  }

  /** What the rule at which the creation stops leaves: without targets it is deleted, if that works. */
  function AfterRefusal(env: Env, rules: map<string, string>, rule: string, calls: nat, isThere: bool)
    : map<string, string>
  {
    if !CallWorks(env, CreateRule, calls) || isThere then rules
    else if CallWorks(env, DeleteRule, calls + 2) then rules - {rule}
    else if rule in rules then rules
    else rules[rule := ""]
  }

  /** All rules are created and owned if none is refused; otherwise those before the first that is. */
  ghost predicate Creates(
    env: Env, s: Store, id: string, todo: seq<string>, seen: set<string>, strict: bool, p: Done)
  {
    && (p.ok <==> NoneRefused(env, s, todo, seen, strict))
    && (p.ok ==> p.s == s.(rules := Owned(s.rules, todo, id), calls := s.calls + 2 * |todo|))
    && forall j: nat | j < |todo| && FirstRefused(env, s, todo, j, seen, strict) ::
         p.s.rules == AfterRefusal(env, Owned(s.rules, todo[..j], id), todo[j], s.calls + 2 * j,
                                   Exists(s, todo, j, seen, strict))
  }

  lemma {:induction false} CreationIff(
    env: Env, s: Store, id: string, todo: seq<string>, seen: set<string>, strict: bool)
    requires seen <= s.rules.Keys
    ensures Creates(env, s, id, todo, seen, strict, ParseRules(env, s, id, todo, seen, strict))
    decreases |todo|
  {
    if todo == [] {
      assert Owned(s.rules, todo, id) == s.rules;
    } else if Refused(env, s, todo, 0, seen, strict) {
      FirstRefusedStops(env, s, id, todo, seen, strict);
    } else {
      var rule, rest := todo[0], todo[1..];
      var t := s.(rules := s.rules[rule := id], calls := s.calls + 2);
      assert ParseRule(env, s, id, rule, seen, strict) == Done(t, true) by {
        assert s.rules[rule := ""][rule := id] == s.rules[rule := id];
      }
      hide ParseRule, Creates, Refused;
      CreationIff(env, t, id, rest, seen + {rule}, strict);
      CreatesOneMore(env, s, t, id, todo, seen, strict, ParseRules(env, t, id, rest, seen + {rule}, strict));
    }
  }

  lemma CreatesOneMore(
    env: Env, s: Store, t: Store, id: string, todo: seq<string>, seen: set<string>, strict: bool, p: Done)
    requires todo != [] && t == s.(rules := s.rules[todo[0] := id], calls := s.calls + 2)
    requires !Refused(env, s, todo, 0, seen, strict) && Creates(env, t, id, todo[1..], seen + {todo[0]}, strict, p)
    ensures Creates(env, s, id, todo, seen, strict, p)
  {
    hide AfterRefusal, Refused, Owned, Exists, FirstRefused, NoneRefused;
    AllOneMore(env, s, t, id, todo, seen, strict, p);
    forall j: nat | j < |todo| && FirstRefused(env, s, todo, j, seen, strict)
      ensures p.s.rules == AfterRefusal(env, Owned(s.rules, todo[..j], id), todo[j], s.calls + 2 * j,
                                        Exists(s, todo, j, seen, strict))
    {
      OneMoreRefused(env, s, t, id, todo, seen, strict, p, j);
    }
  }

  lemma AllOneMore(
    env: Env, s: Store, t: Store, id: string, todo: seq<string>, seen: set<string>, strict: bool, p: Done)
    requires todo != [] && t == s.(rules := s.rules[todo[0] := id], calls := s.calls + 2)
    requires !Refused(env, s, todo, 0, seen, strict)
    requires p.ok <==> NoneRefused(env, t, todo[1..], seen + {todo[0]}, strict)
    requires p.ok ==> p.s == t.(rules := Owned(t.rules, todo[1..], id), calls := t.calls + 2 * (|todo| - 1))
    ensures p.ok <==> NoneRefused(env, s, todo, seen, strict)
    ensures p.ok ==> p.s == s.(rules := Owned(s.rules, todo, id), calls := s.calls + 2 * |todo|)
  {
    hide Refused, Owned, NoneRefused;
    AllRefused(env, s, t, todo, seen, strict);
    assert todo == [todo[0]] + todo[1..];
    OwnedMore(s.rules, todo[0], todo[1..], todo, id);
  }

  lemma OneMoreRefused(
    env: Env, s: Store, t: Store, id: string, todo: seq<string>, seen: set<string>, strict: bool, p: Done, j: nat)
    requires j < |todo| && t == s.(rules := s.rules[todo[0] := id], calls := s.calls + 2)
    requires !Refused(env, s, todo, 0, seen, strict) && Creates(env, t, id, todo[1..], seen + {todo[0]}, strict, p)
    requires FirstRefused(env, s, todo, j, seen, strict)
    ensures p.s.rules == AfterRefusal(env, Owned(s.rules, todo[..j], id), todo[j], s.calls + 2 * j,
                                      Exists(s, todo, j, seen, strict))
  {
    hide AfterRefusal, Refused, Owned, Exists, FirstRefused;
    RestFirstRefused(env, s, t, todo, j, seen, strict);
    assert p.s.rules == AfterRefusal(env, Owned(t.rules, todo[1..][..j - 1], id), todo[1..][j - 1],
                                     t.calls + 2 * (j - 1), Exists(t, todo[1..], j - 1, seen + {todo[0]}, strict));
    hide Creates;
    assert todo[..j] == [todo[0]] + todo[1..][..j - 1];
    OwnedMore(s.rules, todo[0], todo[1..][..j - 1], todo[..j], id);
  }

  lemma AllRefused(env: Env, s: Store, t: Store, todo: seq<string>, seen: set<string>, strict: bool)
    requires todo != [] && t == s.(rules := t.rules, calls := s.calls + 2) && t.rules.Keys == s.rules.Keys + {todo[0]}
    requires !Refused(env, s, todo, 0, seen, strict)
    ensures NoneRefused(env, s, todo, seen, strict) <==> NoneRefused(env, t, todo[1..], seen + {todo[0]}, strict)
  {
    hide Refused;
    if all: nat :| all < |todo| && Refused(env, s, todo, all, seen, strict) {
      RestRefused(env, s, t, todo, all - 1, seen, strict);
    } else {
      forall k: nat | k < |todo| - 1 ensures !Refused(env, t, todo[1..], k, seen + {todo[0]}, strict) {
        RestRefused(env, s, t, todo, k, seen, strict);
      }
    }
  }

  lemma RestFirstRefused(env: Env, s: Store, t: Store, todo: seq<string>, j: nat, seen: set<string>, strict: bool)
    requires todo != [] && t == s.(rules := t.rules, calls := s.calls + 2) && t.rules.Keys == s.rules.Keys + {todo[0]}
    requires !Refused(env, s, todo, 0, seen, strict) && FirstRefused(env, s, todo, j, seen, strict)
    ensures j > 0 && FirstRefused(env, t, todo[1..], j - 1, seen + {todo[0]}, strict)
    ensures Exists(t, todo[1..], j - 1, seen + {todo[0]}, strict) == Exists(s, todo, j, seen, strict)
  {
    hide Refused, Exists;
    RestRefused(env, s, t, todo, j - 1, seen, strict);
    forall k: nat | k < j - 1 ensures !Refused(env, t, todo[1..], k, seen + {todo[0]}, strict) {
      RestRefused(env, s, t, todo, k, seen, strict);
    }
  }

  lemma FirstRefusedStops(env: Env, s: Store, id: string, todo: seq<string>, seen: set<string>, strict: bool)
    requires todo != [] && Refused(env, s, todo, 0, seen, strict) && seen <= s.rules.Keys
    ensures var p := ParseRules(env, s, id, todo, seen, strict);
            && !p.ok && Owned(s.rules, todo[..0], id) == s.rules
            && p.s.rules == AfterRefusal(env, s.rules, todo[0], s.calls, Exists(s, todo, 0, seen, strict))
            && forall j: nat | j < |todo| && FirstRefused(env, s, todo, j, seen, strict) :: j == 0
  {
    var d := ParseRule(env, s, id, todo[0], seen, strict);
    assert s.rules[todo[0] := ""] - {todo[0]} == s.rules - {todo[0]};
    assert todo[0] !in s.rules ==> s.rules - {todo[0]} == s.rules;
    hide Refused;
  }

  lemma RestRefused(env: Env, s: Store, t: Store, todo: seq<string>, k: nat, seen: set<string>, strict: bool)
    requires k + 1 < |todo|
    requires t == s.(rules := t.rules, calls := s.calls + 2) && t.rules.Keys == s.rules.Keys + {todo[0]}
    ensures Exists(t, todo[1..], k, seen + {todo[0]}, strict) == Exists(s, todo, k + 1, seen, strict)
    ensures Refused(env, t, todo[1..], k, seen + {todo[0]}, strict) == Refused(env, s, todo, k + 1, seen, strict)
  {
    assert todo[..k + 1] == [todo[0]] + todo[1..][..k];
  }

  // ---------- deleting rules ----------

  /** The listed rules of the rule set, in the order of the list: each takes one call. */
  function OwnedAmong(rules: map<string, string>, todo: seq<string>, id: string): seq<string> {
    if todo == [] then []
    else (if todo[0] in rules && rules[todo[0]] == id then [todo[0]] else []) + OwnedAmong(rules, todo[1..], id)
  }

  /** The next n calls work. */
  predicate AllWorkFrom(env: Env, op: Op, calls: nat, n: nat) {
    forall call: nat | calls <= call < calls + n :: CallWorks(env, op, call)
  }

  /** The rule is the k-th, its call works, and no earlier one has stopped the deletion. */
  predicate DeletedAt(env: Env, op: Op, calls: nat, owned: seq<string>, k: nat, stop: bool) {
    k < |owned| && CallWorks(env, op, calls + k) && (stop ==> AllWorkFrom(env, op, calls, k))
  }

  ghost predicate Deletes(env: Env, s: Store, owned: seq<string>, op: Op, stop: bool, d: Done) {
    && (d.ok <==> !stop || AllWorkFrom(env, op, s.calls, |owned|))
    && d.s == s.(rules := d.s.rules, calls := d.s.calls) && Within(d.s.rules, s.rules)
    && (forall rule | rule in s.rules ::
          rule !in d.s.rules <==> exists k: nat :: DeletedAt(env, op, s.calls, owned, k, stop) && owned[k] == rule)
    && (d.ok ==> d.s.calls == s.calls + |owned|)
  }

  /** A deletion stops at the first failure, if told so; a rollback goes on and deletes every rule whose call works. */
  lemma {:induction false} DeletionIff(env: Env, s: Store, todo: seq<string>, id: string, op: Op, stop: bool)
    requires NoDup(todo)
    ensures Deletes(env, s, OwnedAmong(s.rules, todo, id), op, stop, DeleteRules(env, s, todo, id, op, stop))
    decreases |todo|
  {
    if todo != [] {
      var rule, rest := todo[0], todo[1..];
      if rule in s.rules && s.rules[rule] == id {
        var d := DeleteObject(env, s, rule, op);
        var owned := OwnedAmong(d.s.rules, rest, id);
        OwnedWithout(s.rules, rule, rest, id);
        OwnedListed(s.rules, rest, id);
        if d.ok || !stop {
          DeletionIff(env, d.s, rest, id, op, stop);
          hide DeleteRules, OwnedAmong, Deletes;
          DeletesOneMore(env, s, rule, owned, op, stop, DeleteRules(env, d.s, rest, id, op, stop));
        } else {
          hide Deletes;
          NoneDeleted(env, s, [rule] + owned, op, stop, d);
        }
      } else {
        assert OwnedAmong(s.rules, todo, id) == OwnedAmong(s.rules, rest, id);
        DeletionIff(env, s, rest, id, op, stop);
      }
    }
  }

  lemma {:induction false} OwnedWithout(rules: map<string, string>, rule: string, todo: seq<string>, id: string)
    requires rule !in todo
    ensures OwnedAmong(rules - {rule}, todo, id) == OwnedAmong(rules, todo, id)
  {
    if todo != [] { OwnedWithout(rules, rule, todo[1..], id); }
  }

  lemma {:induction false} OwnedListed(rules: map<string, string>, todo: seq<string>, id: string)
    ensures forall rule :: rule in OwnedAmong(rules, todo, id) <==> rule in todo && rule in rules && rules[rule] == id
  {
    if todo != [] {
      assert todo == [todo[0]] + todo[1..];
      OwnedListed(rules, todo[1..], id);
    }
  }

  lemma NoneDeleted(env: Env, s: Store, owned: seq<string>, op: Op, stop: bool, d: Done)
    requires stop && owned != [] && !CallWorks(env, op, s.calls) && d == Done(s.(calls := s.calls + 1), false)
    ensures Deletes(env, s, owned, op, stop, d)
  {
    assert forall n: nat | n > 0 :: !AllWorkFrom(env, op, s.calls, n);
  }

  lemma DeletesOneMore(env: Env, s: Store, rule: string, owned: seq<string>, op: Op, stop: bool, d: Done)
    requires rule in s.rules && rule !in owned && (stop ==> CallWorks(env, op, s.calls))
    requires Deletes(env, DeleteObject(env, s, rule, op).s, owned, op, stop, d)
    ensures Deletes(env, s, [rule] + owned, op, stop, d)
  {
    var t := DeleteObject(env, s, rule, op).s;
    AllWorkShift(env, op, s.calls, |owned|);
    hide AllWorkFrom, DeletedAt;
    forall r | r in s.rules
      ensures r !in d.s.rules <==>
              exists k: nat :: DeletedAt(env, op, s.calls, [rule] + owned, k, stop) && ([rule] + owned)[k] == r
    {
      DeletedOneMore(env, op, s.calls, rule, owned, stop, r);
      if r in t.rules {
        assert r !in d.s.rules <==> exists k: nat :: DeletedAt(env, op, t.calls, owned, k, stop) && owned[k] == r;
      }
    }
  }

  lemma DeletedOneMore(env: Env, op: Op, calls: nat, rule: string, owned: seq<string>, stop: bool, r: string)
    requires rule !in owned && (stop ==> CallWorks(env, op, calls))
    ensures (exists k: nat :: DeletedAt(env, op, calls, [rule] + owned, k, stop) && ([rule] + owned)[k] == r) <==>
              if r == rule then CallWorks(env, op, calls)
              else exists k: nat :: DeletedAt(env, op, calls + 1, owned, k, stop) && owned[k] == r
  {
    var all := [rule] + owned;
    if k: nat :| DeletedAt(env, op, calls + 1, owned, k, stop) && owned[k] == r {
      AllWorkShift(env, op, calls, k);
      assert DeletedAt(env, op, calls, all, k + 1, stop) && all[k + 1] == r;
    }
    if k: nat :| DeletedAt(env, op, calls, all, k, stop) && all[k] == r && k > 0 {
      AllWorkShift(env, op, calls, k - 1);
      assert DeletedAt(env, op, calls + 1, owned, k - 1, stop) && owned[k - 1] == r;
    }
    if CallWorks(env, op, calls) {
      AllWorkShift(env, op, calls, 0);
      assert DeletedAt(env, op, calls, all, 0, stop) && all[0] == rule;
    }
  }

  lemma AllWorkShift(env: Env, op: Op, calls: nat, n: nat)
    ensures AllWorkFrom(env, op, calls, n + 1) <==> CallWorks(env, op, calls) && AllWorkFrom(env, op, calls + 1, n)
    ensures AllWorkFrom(env, op, calls, 0)
  {
  }

  // ---------- what is answered ----------

  /** The document of the file, if its identifier is not installed yet. */
  function NewDocument(env: Env, s: Store, path: Path): Option<Document> {
    match Info(env, s, path)
    case Some(doc) => if HasId(s.installed, doc.id) then None else Some(doc)
    case None => None
  }

  /** The calls that move the file to the installed ones work. */
  predicate MoveWorks(env: Env, calls: nat, notStartup: bool) {
    if notStartup then CallWorks(env, CopyFile, calls) && CallWorks(env, RemoveFile, calls + 1)
    else CallWorks(env, RenameFile, calls)
  }

  /** The answer to an installation, by what goes wrong first. */
  lemma InstallAnswered(env: Env, s: Store, path: Path, notStartup: bool)
    ensures var doc, r := NewDocument(env, s, path), Install(env, s, path, notStartup);
            && (r.status == Duplicated <==> Info(env, s, path).Some? && doc.None?)
            && (r.status == ParseFailed <==>
                  || Info(env, s, path).None?
                  || (doc.Some? && !NoneRefused(env, s, doc.value.rules, {}, notStartup)))
            && (r.status == FileSystemFailed <==>
                  && doc.Some? && NoneRefused(env, s, doc.value.rules, {}, notStartup)
                  && !MoveWorks(env, s.calls + 2 * |doc.value.rules|, notStartup))
            && (r.status == Ok <==>
                  && doc.Some? && NoneRefused(env, s, doc.value.rules, {}, notStartup)
                  && MoveWorks(env, s.calls + 2 * |doc.value.rules|, notStartup))
  {
    hide ParseRules, Rollback, HasId, NoneRefused, Discard, Move, Owned;
    if NewDocument(env, s, path).Some? {
      var doc := NewDocument(env, s, path).value;
      CreationIff(env, s, doc.id, doc.rules, {}, notStartup);
      ParseKeepsRest(env, s, doc.id, doc.rules, {}, notStartup);
      var p := ParseRules(env, s, doc.id, doc.rules, {}, notStartup);
      MoveFileIff(env, p.s, path, InstalledFile(doc.id), notStartup);
    }
  }

  lemma MoveFileIff(env: Env, s: Store, from: Path, to: Path, changeUser: bool)
    requires from in s.files
    ensures Move(env, s, from, to, changeUser).ok <==> MoveWorks(env, s.calls, changeUser)
  {
  }

  /** The rules that a deletion of the identifier comes to, in the order of the listing. */
  function RulesToDelete(env: Env, s: Store, id: string): seq<string> {
    OwnedAmong(s.rules, env.list(s.rules.Keys), id)
  }

  /** The answer to a deletion: one call a rule, then one for each of the two files. */
  lemma DeleteAnswered(env: Env, s: Store, id: string)
    requires env.Valid()
    ensures var r, n := Delete(env, s, id), |RulesToDelete(env, s, id)|;
            var calls := s.calls + n;
            && (r.status == Undefined <==> !HasId(s.installed, id)) && (r.status == Undefined ==> r.s == s)
            && (r.status == RuleFailed <==> HasId(s.installed, id) && !AllWorkFrom(env, DeleteRule, s.calls, n))
            && (r.status == Ok <==>
                  && HasId(s.installed, id) && AllWorkFrom(env, DeleteRule, s.calls, n)
                  && InstalledFile(id) in s.files && CallWorks(env, RemoveFile, calls)
                  && DeletingFile(id) in s.files && CallWorks(env, RemoveFile, calls + 1))
            && r.status in {Undefined, RuleFailed, Ok, FileSystemFailed}
            && (r.s.installed == s.installed || r.s.installed == Erase(s.installed, id))
            && (r.status in {Undefined, RuleFailed} ==> r.s.installed == s.installed && r.s.files == s.files)
            && (r.status in {Ok, FileSystemFailed} ==> r.s.installed == Erase(s.installed, id))
  {
    hide DeleteRules, Erase, HasId, OwnedAmong;
    DeletionIff(env, s, env.list(s.rules.Keys), id, DeleteRule, true);
    hide AllWorkFrom;
  }

  /** The answer to an update, by how far it gets. */
  lemma UpdateAnswered(env: Env, s: Store, path: Path)
    requires env.Valid() && IdsDistinct(s.installed)
    ensures var status := Update(env, s, path).status;
            if Info(env, s, path).None? then status == ParseFailed
            else if Tries(env, s, path) then status == Install(env, Ready(env, s, path), path, true).status
            else if !Outdated(env, s, path) then status == Duplicated
            else
              var id := Info(env, s, path).value.id;
              if !CopyOfOldWorks(env, s, id) then status == FileSystemFailed
              else if !AllWorkFrom(env, DeleteRule, s.calls + 2, |RulesToDelete(env, s, id)|) then status == RuleFailed
              else status == FileSystemFailed
  {
    hide DeleteRules, Erase, Lookup, IdsDistinct, HasId, Env.Valid, Install, Delete, Copy, Ready, AllWorkFrom;
    UpdateTries(env, s, path);
    if Info(env, s, path).Some? {
      var id := Info(env, s, path).value.id;
      NonEmptyId(env, s, path);
      LookupFinds(s.installed, id);
      OldCopiesIff(env, s, id);
      OldRulesIff(env, s, id);
      if Outdated(env, s, path) && OldCopied(env, s, id).ok {
        OldDeletion(env, s, id);
        DeleteAnswered(env, OldCopied(env, s, id).s, id);
      }
    }
  }

  lemma OldCopiesIff(env: Env, s: Store, id: string)
    ensures OldCopied(env, s, id).ok <==> CopyOfOldWorks(env, s, id)
    ensures OldCopied(env, s, id).s.calls == s.calls + 2
    ensures RulesToDelete(env, OldCopied(env, s, id).s, id) == RulesToDelete(env, s, id)
  {
  }

  lemma OldRulesIff(env: Env, s: Store, id: string)
    requires env.Valid()
    ensures OldRulesDeleted(env, s, id).ok <==> AllWorkFrom(env, DeleteRule, s.calls + 2, |RulesToDelete(env, s, id)|)
  {
    var c := OldCopied(env, s, id).s;
    assert c.rules == s.rules && c.calls == s.calls + 2;
    hide DeleteRules, OwnedAmong, AllWorkFrom;
    DeletionIff(env, c, env.list(c.rules.Keys), id, DeleteRule, true);
  }

  /** The old file is there, and the call that copies it to the deleting folder, after that for the backup, works. */
  predicate CopyOfOldWorks(env: Env, s: Store, id: string) {
    InstalledFile(id) in s.files && CallWorks(env, CopyFile, s.calls + 1)
  }
}
