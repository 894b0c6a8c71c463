/** Runs over the account service of src/account.c: connections change, save, load and remove in any order, and any
    query may fail. */
module AccountRuns {
  import opened Wrappers
  import opened Account

  /** One step of a run, by the k-th connection. */
  datatype Action =
    | EditNames(k: nat, names: seq<Option<string>>)
    | EditCore(k: nat, name: Option<string>, password: string, experience: int, email: Option<string>, surveyDone: bool)
    | EditUnlocks(k: nat, races: seq<int>, classes: seq<int>)
    | Save(k: nat)
    | Load(k: nat, account: string)
    | Remove(k: nat, character: string)

  /** Edits respect the lengths of the arrays. */
  predicate Proper(action: Action) {
    && (action.EditNames? ==> |action.names| == MAX_CHARS_PER_ACCOUNT)
    && (action.EditUnlocks? ==> |action.races| == MAX_UNLOCKED_RACES && |action.classes| == MAX_UNLOCKED_CLASSES)
  }

  /** The action puts the name into the memory of a connection. */
  predicate Restores(action: Action, name: string) {
    action.EditNames? && Holds(action.names, name)
  }

  /** An edit has changed what it names, and nothing else. */
  twostate predicate Applied(action: Action, v: View)
    reads v
  {
    var m := old(v.Mem());
    match action
    case EditNames(_, names) => v.Mem() == m.(names := names)
    case EditCore(_, name, password, experience, email, surveyDone) =>
      v.Mem() == Memory(name, password, experience, email, surveyDone, m.names, m.races, m.classes)
    case EditUnlocks(_, races, classes) => v.Mem() == m.(races := races, classes := classes)
    case _ => true
  }

  /** What a step did.  An edit may have put a name back; a save was of an account with a name or not, may have taken
      something from another connection, and has stored the account of its connection or not; a load was of a name that
      some account has or not, and may have been faithful. */
  datatype Event =
    | Nothing
    | Edited(restores: bool)
    | Saved(ok: bool, named: bool, takes: bool, stored: bool)
    | Loaded(found: bool, held: bool, faithful: bool)
    | Removed(ok: bool)

  /** The step did what it was asked for. */
  predicate Worked(e: Event) {
    match e
    case Saved(ok, named, _, _) => named ==> ok
    case Loaded(found, held, _) => held ==> found
    case Removed(ok) => ok
    case _ => true
  }

  predicate AllWorked(trace: seq<Event>) {
    forall e :: e in trace ==> Worked(e)
  }

  predicate Harmless(e: Event) {
    match e
    case Saved(_, _, takes, _) => !takes
    case Loaded(found, _, faithful) => found ==> faithful
    case _ => true
  }

  predicate PutsBack(e: Event) {
    e.Edited? && e.restores
  }

  /** The event is of the kind of the action, or the action was by a connection that is not there. */
  predicate Fits(action: Action, e: Event, name: string) {
    || e == Nothing
    || match action
       case Save(_) => e.Saved?
       case Load(_, _) => e.Loaded?
       case Remove(_, _) => e.Removed?
       case _ => e.Edited? && (e.restores ==> Restores(action, name))
  }

  /** The name is gone from an account: no row of it is linked to the account, and no connection of the account, or
      of one that is yet to be saved, lists it. */
  ghost predicate Gone(s: Service, name: string, id: int)
    reads s, s.db, s.Objects()
  {
    && NotLinked(s.db.committed.players, name, id)
    && forall v :: v in s.Objects() && (v.id == id || v.id == 0) ==> !Holds(v.names, name)
  }

  /** A save of a view that does not hold the name, or is of another account, does not link it. */
  lemma SaveLinksNothing(before: seq<PlayerRow>, after: seq<PlayerRow>, names: seq<Option<string>>, saver: int,
                         name: string, id: int)
    requires NotLinked(before, name, id) && (saver == id ==> !Holds(names, name))
    requires after == before || after == LinkAll(before, QueryNames(names), saver)
    ensures NotLinked(after, name, id)
  {
    if after != before {
      if saver == id {
        SaveKeepsNotLinked(before, names, id, name);
      } else {
        forall p | p in after
          ensures !(Lower(p.name) == Lower(name) && p.accountId == Some(id))
        {
          var i :| 0 <= i < |after| && after[i] == p;
          assert before[i] in before;
        }
      }
    }
  }

  /** A save of a view takes something from another connection: one of its characters or its row.  Or the row the
      save would write is not the view's own. */
  ghost predicate Takes(s: Service, v: View)
    requires s.Idle() && v.Shape()
    reads s, s.db, s.Objects(), v
  {
    var t := s.db.committed;
    || (exists w :: w in s.Objects() && w != v && w.id != v.SavedId(t, s.db.nextId)
                 && !Untouched(w, v.SavedId(t, s.db.nextId), v.Mem(), v.PendingFlags(), t))
    || !(v.id == 0 || OwnRow(t.accounts, v.id, v.name.GetOr("")))
  }

  /** No slot of one list has the name of a slot of the other. */
  ghost predicate Disjoint(names: seq<Option<string>>, names': seq<Option<string>>) {
    forall i, j :: 0 <= i < |names| && 0 <= j < |names'| && names[i].Some? && names'[j].Some? ==>
      Lower(names[i].value) != Lower(names'[j].value)
  }

  lemma DisjointAreApart(w: View, names: seq<Option<string>>)
    requires w.Shape() && Disjoint(names, w.names) && w.hash[CHARACTERS] == HashOf(w.Mem(), CHARACTERS)
    ensures NamesApart(w, QueryNames(names))
  {
    var texts := w.hash[CHARACTERS].names;
    forall key | key in LinkedNames(texts)
      ensures key !in QueryNames(names)
    {
      QueryNamesAre(names, key);
      LinkedNamesAre(texts, key);
      var j: nat :| LinkedAt(texts, j, key);
      assert w.names[j].Some?;
    }
  }

  /** A save of an account that is in the database takes nothing from connections that list other names only, and have
      not changed their list since it was saved or loaded. */
  lemma DisjointTakesNothing(s: Service, v: View)
    requires s.Idle() && v in s.Objects() && v.id in s.db.committed.accounts
    requires forall w :: w in s.Objects() && w.id != v.id ==>
               Disjoint(v.names, w.names) && w.hash[CHARACTERS] == HashOf(w.Mem(), CHARACTERS)
    ensures !Takes(s, v)
  {
    forall w | w in s.Objects() && w.id != v.id
      ensures Untouched(w, v.id, v.Mem(), v.PendingFlags(), s.db.committed)
    {
      DisjointAreApart(w, v.names);
    }
  }

  /** If all agree and a save takes nothing, every view keeps agreeing, and the save will store its account. */
  lemma TakingNothingKeeps(s: Service, v: View)
    requires s.Idle() && v in s.Objects() && s.AllAgree() && !Takes(s, v)
    ensures v.WillStore(s.db.committed, s.db.nextId)
    ensures forall w :: w in s.Objects() ==> Keeps(w, v, s.db.committed, s.db.nextId)
  {
    AgreementStores(v, s.db.committed, s.db.nextId);
  }

  method ActSave(s: Service, v: View, ghost name: string, ghost id: int) returns (ok: bool)
    requires s.Idle() && v in s.Objects() && 0 < id < s.db.nextId
    modifies s.db, s.Objects()
    ensures s.Idle() && s.db.nextId >= old(s.db.nextId) && s.db.failures >= old(s.db.failures)
    ensures old(v.name.Some?) && s.db.failures == old(s.db.failures) ==> ok
    ensures old(Gone(s, name, id)) ==> Gone(s, name, id)
    ensures old(s.AllAgree() && !Takes(s, v)) ==> s.AllAgree()
    ensures old(s.AllAgree() && !Takes(s, v)) && ok ==> Stored(s.db.committed, v.id, v.Mem())
  {
    ghost var before, own := s.db.committed.players, v.id;
    if s.AllAgree() && !Takes(s, v) {
      TakingNothingKeeps(s, v);
    }
    ok := s.SaveChecked(v);
    if old(Gone(s, name, id)) {
      assert v.id == own || own == 0;
      SaveLinksNothing(before, s.db.committed.players, v.names, v.id, name, id);
    }
  }

  method ActLoad(s: Service, v: View, account: string, ghost name: string, ghost id: int)
    returns (found: bool, ghost faithful: bool)
    requires s.Idle() && v in s.Objects() && 0 < id < s.db.nextId
    modifies s.db`committed, s.db`failures, v
    ensures s.Idle() && s.db.failures >= old(s.db.failures)
    ensures s.db.failures == old(s.db.failures) ==> (found <==> old(NameHeld(s.db.committed.accounts, account)))
    ensures old(Gone(s, name, id)) ==> Gone(s, name, id)
    ensures found ==> (faithful <==> v.Agrees(s.db.committed))
    ensures found ==> (faithful <==> Stored(s.db.committed, v.id, v.Mem()))
    ensures old(s.AllAgree()) && (found ==> faithful) ==> s.AllAgree()
  {
    ghost var t := s.db.committed;
    var classesLoaded, racesLoaded;
    found, classesLoaded, racesLoaded := s.LoadAccount(account, v);
    faithful := found && v.Agrees(s.db.committed);
    if found && v.id == id && NotLinked(t.players, name, id) {
      RowsDoNotHold(v.names, s.db.committed.players, id, name);
    }
    FewerPlayersAgreeAll(s.Objects() - {v}, t, s.db.committed);
    if !found && v.Agrees(t) {
      FewerPlayersAgree(v, t, s.db.committed);
    }
  }

  method ActRemove(s: Service, v: View, character: string, ghost name: string, ghost id: int) returns (ok: bool)
    requires s.Idle() && v in s.Objects() && 0 < id < s.db.nextId
    modifies s.db, s.Objects()
    ensures s.Idle() && s.db.nextId == old(s.db.nextId) && s.db.failures >= old(s.db.failures)
    ensures s.db.failures == old(s.db.failures) ==> ok
    ensures old(Gone(s, name, id)) ==> Gone(s, name, id)
    ensures old(s.AllAgree()) ==> s.AllAgree()
  {
    ok := s.BeginRemoval(character, v);
    if !ok {
      return;
    }
    var rest := s.db.Attempt();
    if !rest {
      s.db.Rollback();
      return false;
    }
    ghost var players, own := s.db.committed.players, v.id;
    ok := s.CommitRemoval(v, character);
    if ok && own == id && NotLinked(players, name, id) {
      RowsOnlyHold(s.Objects(), players, id, name);
    }
    if ok && own == 0 {
      assert NotLinked(players, name, 0);
      RowsOnlyHold(s.Objects(), players, 0, name);
    }
  }

  method ActEditNames(s: Service, v: View, names: seq<Option<string>>)
    requires s.Idle() && v in s.Objects() && |names| == MAX_CHARS_PER_ACCOUNT
    modifies v`names
    ensures s.Idle() && v.names == names
    ensures old(s.AllAgree()) ==> s.AllAgree()
  {
    v.names := names;
    assert forall w :: w in s.Objects() && old(w.Agrees(s.db.committed)) ==> w.Agrees(s.db.committed);
  }

  method ActEditCore(s: Service, v: View, action: Action)
    requires s.Idle() && v in s.Objects() && action.EditCore?
    modifies v`name, v`password, v`experience, v`email, v`surveyDone
    ensures s.Idle() && Applied(action, v)
    ensures old(s.AllAgree()) ==> s.AllAgree()
  {
    v.name, v.password, v.experience, v.email := action.name, action.password, action.experience, action.email;
    v.surveyDone := action.surveyDone;
    assert forall w :: w in s.Objects() && old(w.Agrees(s.db.committed)) ==> w.Agrees(s.db.committed);
  }

  method ActEditUnlocks(s: Service, v: View, races: seq<int>, classes: seq<int>)
    requires s.Idle() && v in s.Objects() && |races| == MAX_UNLOCKED_RACES && |classes| == MAX_UNLOCKED_CLASSES
    modifies v`races, v`classes
    ensures s.Idle() && v.races == races && v.classes == classes
    ensures old(s.AllAgree()) ==> s.AllAgree()
  {
    v.races, v.classes := races, classes;
    assert forall w :: w in s.Objects() && old(w.Agrees(s.db.committed)) ==> w.Agrees(s.db.committed);
  }

  /** The k-th connection holds a view. */
  predicate Present(s: Service, k: nat)
    reads s
  {
    k < |s.views| && s.views[k] != null
  }

  /** One step, whichever queries fail in it, and what it did.  A name that is gone stays gone unless an edit by a
      connection of its account, or of a new one, puts it back.  If all connections agree with the database they do so
      afterwards, unless a save takes something from one of them or a load is unfaithful; and a save that takes
      nothing and returns true has stored its account. */
  method Act(s: Service, action: Action, ghost name: string, ghost id: int) returns (ghost e: Event)
    requires s.Idle() && Proper(action) && 0 < id < s.db.nextId
    modifies s.db, s.Objects()
    ensures s.Idle() && s.db.nextId >= old(s.db.nextId) && s.db.failures >= old(s.db.failures)
    ensures Fits(action, e, name) && (e == Nothing <==> !Present(s, action.k))
    ensures s.db.failures == old(s.db.failures) ==> Worked(e)
    ensures e.Saved? ==> e.takes == old(Takes(s, s.views[action.k])) && e.named == old(s.views[action.k].name.Some?)
    ensures e.Loaded? ==> e.held == old(NameHeld(s.db.committed.accounts, action.account))
    ensures e.Saved? ==> e.stored == Stored(s.db.committed, s.views[action.k].id, s.views[action.k].Mem())
    ensures e.Loaded? && e.found ==>
              e.faithful == Stored(s.db.committed, s.views[action.k].id, s.views[action.k].Mem())
    ensures e.Edited? ==> Applied(action, s.views[action.k])
    ensures e.Edited? ==> e.restores == (Restores(action, name) && s.views[action.k].id in {0, id})
    ensures old(Gone(s, name, id)) && !PutsBack(e) ==> Gone(s, name, id)
    ensures old(s.AllAgree()) && Harmless(e) ==> s.AllAgree()
    ensures old(s.AllAgree()) && Harmless(e) && e.Saved? && e.ok ==> e.stored
  {
    if action.k >= |s.views| || s.views[action.k] == null {
      return Nothing;
    }
    var v: View := s.views[action.k];
    match action
    case Save(_) =>
      ghost var named, takes := v.name.Some?, Takes(s, v);
      var ok := ActSave(s, v, name, id);
      e := Saved(ok, named, takes, Stored(s.db.committed, v.id, v.Mem()));
    case Load(_, account) =>
      ghost var faithful, held := false, NameHeld(s.db.committed.accounts, account);
      var found;
      found, faithful := ActLoad(s, v, account, name, id);
      e := Loaded(found, held, faithful);
    case Remove(_, character) =>
      var ok := ActRemove(s, v, character, name, id);
      e := Removed(ok);
    case EditNames(_, names) =>
      ActEditNames(s, v, names);
      e := Edited(Holds(names, name) && v.id in {0, id});
    case EditUnlocks(_, races, classes) =>
      ActEditUnlocks(s, v, races, classes);
      e := Edited(false);
    case EditCore(_, _, _, _, _, _) =>
      ActEditCore(s, v, action);
      e := Edited(false);
  }

  /** What a run has kept so far, if the name was gone and all connections agreed at first. */
  ghost predicate Running(s: Service, trace: seq<Event>, name: string, id: int, gone: bool, agreed: bool, failed: nat)
    requires s.Idle()
    reads s, s.db, s.Objects()
  {
    && s.db.failures >= failed
    && (s.db.failures == failed ==> AllWorked(trace))
    && (gone && NonePutsBack(trace) ==> Gone(s, name, id))
    && (agreed && AllHarmless(trace) ==> s.AllAgree())
    && (agreed ==> SavesStore(trace))
  }

  method RunOne(s: Service, action: Action, ghost name: string, ghost id: int, ghost trace: seq<Event>,
                ghost gone: bool, ghost agreed: bool, ghost failed: nat)
    returns (ghost e: Event)
    requires s.Idle() && Proper(action) && 0 < id < s.db.nextId && Running(s, trace, name, id, gone, agreed, failed)
    modifies s.db, s.Objects()
    ensures s.Idle() && s.db.nextId >= old(s.db.nextId) && Fits(action, e, name)
    ensures Running(s, trace + [e], name, id, gone, agreed, failed)
  {
    e := Act(s, action, name, id);
    if agreed {
      SavesStoreStep(trace, e);
    }
    TraceGrows(trace, e);
  }

  /** A run of any actions, and what each of them did.  A name that is gone stays gone unless an edit puts it back.  If
      all connections agree with the database at first they do so as long as loads are faithful and saves take
      nothing, and up to there every save that returns true has stored its account.  If no query fails, everything
      works: every account with a name is saved, every account that is there is found, every character is removed. */
  method Run(s: Service, actions: seq<Action>, ghost name: string, ghost id: int) returns (ghost trace: seq<Event>)
    requires s.Idle() && 0 < id < s.db.nextId
    requires forall a :: a in actions ==> Proper(a)
    modifies s.db, s.Objects()
    ensures s.Idle()
    ensures |trace| == |actions| && forall i :: 0 <= i < |trace| ==> Fits(actions[i], trace[i], name)
    ensures old(Gone(s, name, id)) && NonePutsBack(trace) ==> Gone(s, name, id)
    ensures old(s.AllAgree()) && AllHarmless(trace) ==> s.AllAgree()
    ensures old(s.AllAgree()) ==> SavesStore(trace)
    ensures s.db.failures >= old(s.db.failures) && (s.db.failures == old(s.db.failures) ==> AllWorked(trace))
    ensures old(s.AllAgree()) && s.db.failures == old(s.db.failures) ==> NamedSavesStore(trace)
  {
    trace := [];
    ghost var gone, agreed, failed := Gone(s, name, id), s.AllAgree(), s.db.failures;
    for i := 0 to |actions|
      invariant s.Idle() && id < s.db.nextId
      invariant |trace| == i && forall j :: 0 <= j < i ==> Fits(actions[j], trace[j], name)
      invariant Running(s, trace, name, id, gone, agreed, failed)
    {
      assert actions[i] in actions;
      ghost var e := RunOne(s, actions[i], name, id, trace, gone, agreed, failed);
      trace := trace + [e];
    }
    if agreed && s.db.failures == failed {
      WorkedSavesStore(trace);
    }
  }

  predicate AllHarmless(trace: seq<Event>) {
    forall e :: e in trace ==> Harmless(e)
  }

  predicate NonePutsBack(trace: seq<Event>) {
    forall e :: e in trace ==> !PutsBack(e)
  }

  lemma TraceGrows(trace: seq<Event>, e: Event)
    ensures AllHarmless(trace + [e]) <==> AllHarmless(trace) && Harmless(e)
    ensures NonePutsBack(trace + [e]) <==> NonePutsBack(trace) && !PutsBack(e)
    ensures AllWorked(trace + [e]) <==> AllWorked(trace) && Worked(e)
  {
    assert e in trace + [e] && forall f :: f in trace ==> f in trace + [e];
  }

  predicate HarmlessTo(trace: seq<Event>, i: nat)
    requires i < |trace|
  {
    forall j :: 0 <= j <= i ==> Harmless(trace[j])
  }

  /** As long as everything before was harmless, every save that takes nothing and returns true has stored its
      account. */
  ghost predicate SavesStore(trace: seq<Event>) {
    forall i :: 0 <= i < |trace| && trace[i].Saved? && trace[i].ok && HarmlessTo(trace, i) ==> trace[i].stored
  }

  /** As long as everything before was harmless, every save of an account with a name has stored it. */
  ghost predicate NamedSavesStore(trace: seq<Event>) {
    forall i :: 0 <= i < |trace| && trace[i].Saved? && trace[i].named && HarmlessTo(trace, i) ==> trace[i].stored
  }

  lemma WorkedSavesStore(trace: seq<Event>)
    requires SavesStore(trace) && AllWorked(trace)
    ensures NamedSavesStore(trace)
  {
    forall i | 0 <= i < |trace| && trace[i].Saved? && trace[i].named && HarmlessTo(trace, i)
      ensures trace[i].stored
    {
      assert Worked(trace[i]);
    }
  }

  lemma SavesStoreStep(trace: seq<Event>, e: Event)
    requires SavesStore(trace)
    requires AllHarmless(trace) && Harmless(e) && e.Saved? && e.ok ==> e.stored
    ensures SavesStore(trace + [e])
  {
    var all := trace + [e];
    forall i | 0 <= i < |all| && all[i].Saved? && all[i].ok && HarmlessTo(all, i)
      ensures all[i].stored
    {
      assert forall j :: 0 <= j < |trace| ==> all[j] == trace[j];
      assert i < |trace| ==> HarmlessTo(trace, i);
    }
  }

  /** After a committed removal no row of the name is linked to the account again, whatever the connections do and
      whichever queries fail, unless an edit by a connection of the account, or of a new one, puts the name back. */
  method RemoveThenRun(s: Service, a: View, actions: seq<Action>, ghost name: string)
    returns (ok: bool, ghost trace: seq<Event>)
    requires s.db.Valid() && s.db.open && 0 < a.id < s.db.nextId
    requires s.db.working == s.db.committed.(players := DeletePlayer(s.db.committed.players, name, a.id))
    requires forall v :: v in s.Objects() ==> v.Shape() && v.id < s.db.nextId
    requires forall v :: v in s.Objects() && v.id == 0 ==> !Holds(v.names, name)
    requires forall b :: b in actions ==> Proper(b)
    modifies s.db, s.Objects()
    ensures s.Idle()
    ensures ok ==> |trace| == |actions| && forall i :: 0 <= i < |trace| ==> Fits(actions[i], trace[i], name)
    ensures ok && NonePutsBack(trace) ==> Gone(s, name, old(a.id))
    ensures s.db.failures >= old(s.db.failures) && (s.db.failures == old(s.db.failures) ==> ok && AllWorked(trace))
    ensures !ok ==> s.db.committed == old(s.db.committed)
  {
    ghost var id := a.id;
    trace := [];
    ok := s.CommitRemoval(a, name);
    if ok {
      trace := Run(s, actions, name, id);
    }
  }

  /** Two connections register the same name, which nobody has: if both saves return true, the second one has taken
      over the first one's account, and both now hold and store the second one's password. */
  method TwoRegistrations(s: Service, a: View, b: View) returns (first: bool, second: bool)
    requires s.Idle() && a in s.Objects() && b in s.Objects() && a != b && a.id == b.id == 0
    requires a.name.Some? && b.name.Some? && Lower(a.name.value) == Lower(b.name.value)
    requires !NameHeld(s.db.committed.accounts, a.name.value)
    modifies s.db, s.Objects()
    ensures s.db.failures == old(s.db.failures) ==> first && second
    ensures first && second ==> a.id == b.id == old(s.db.nextId) && a.password == b.password == old(b.password)
    ensures first && second ==> a.id in s.db.committed.accounts
    ensures first && second ==> s.db.committed.accounts[a.id].password == old(b.password)
  {
    ghost var fresh' := s.db.nextId;
    first := s.SaveChecked(a);
    second := false;
    if first {
      assert a.id == fresh' && s.db.committed.accounts[fresh'].name == a.name.value;
      assert b.Mem() == old(b.Mem()) && b.id == 0;
      assert NameHeld(s.db.committed.accounts, b.name.value);
      second := s.SaveChecked(b);
    }
  }
}
