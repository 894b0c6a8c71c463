/** Account persistence (src/account.c): which parts of an account changed since the last save, one transaction
    over four components, several connected views of one account, and staged character removal.

    The database is a committed state plus the working state of the open transaction; every query may fail.  A
    failed COMMIT or ROLLBACK discards the work of the transaction. */
module Account {
  import opened Wrappers

  const MAX_CHARS_PER_ACCOUNT := 100
  const MAX_UNLOCKED_CLASSES := 50
  const MAX_UNLOCKED_RACES := 50

  const MAX_PWD_LENGTH := 30

  const CORE := 0
  const CHARACTERS := 1
  const RACES := 2
  const CLASSES := 3
  const COMPONENT_COUNT := 4

  // ----- Tables -----

  datatype AccountRow =
    AccountRow(name: string, password: string, experience: int, email: Option<string>, surveyDone: bool)
  datatype PlayerRow = PlayerRow(name: string, accountId: Option<int>)
  datatype Tables = Tables(accounts: map<int, AccountRow>, players: seq<PlayerRow>,
                           races: set<(int, int)>, classes: set<(int, int)>)

  /** UPDATE player_data SET account_id = id for the rows whose lower-case name is in `names`. */
  function LinkAll(players: seq<PlayerRow>, names: set<string>, id: int): (r: seq<PlayerRow>)
    ensures |r| == |players|
    ensures forall i :: 0 <= i < |r| ==>
              r[i] == if Lower(players[i].name) in names then players[i].(accountId := Some(id)) else players[i]
  {
    seq(|players|, i requires 0 <= i < |players| =>
      if Lower(players[i].name) in names then players[i].(accountId := Some(id)) else players[i])
  }

  // ----- The keys of the tables -----

  /** Some row of account_data has this name, in whatever case. */
  predicate NameHeld(accounts: map<int, AccountRow>, name: string) {
    exists id :: id in accounts && Lower(accounts[id].name) == Lower(name)
  }

  /** The unique key of account_data: no two rows share a name, whatever its case. */
  ghost predicate UniqueAccounts(accounts: map<int, AccountRow>) {
    forall i, j :: i in accounts && j in accounts && Lower(accounts[i].name) == Lower(accounts[j].name) ==> i == j
  }

  /** The primary key of player_data: no two rows share a name, whatever its case. */
  ghost predicate UniqueNames(players: seq<PlayerRow>) {
    forall p, q :: p in players && q in players && Lower(p.name) == Lower(q.name) ==> p == q
  }

  ghost predicate NoZeros(table: set<(int, int)>) {
    forall p :: p in table ==> p.1 != 0
  }

  /** What the keys, and the code as the only writer of unlocks, make sure of: names are unique, characters belong to
      accounts with an id, and no unlock is 0. */
  ghost predicate Keyed(t: Tables) {
    && UniqueAccounts(t.accounts) && UniqueNames(t.players) && NoZeros(t.races) && NoZeros(t.classes)
    && forall p :: p in t.players ==> p.accountId != Some(0)
  }

  /** The row that an INSERT ... ON DUPLICATE KEY UPDATE with this id and name writes: the row with the id, else the
      one with the name, else a new one with the id. */
  function RowOf(accounts: map<int, AccountRow>, id: int, name: string): (k: int)
    requires UniqueAccounts(accounts)
    ensures k == id || (k in accounts && Lower(accounts[k].name) == Lower(name))
    ensures k == id <==> OwnRow(accounts, id, name)
  {
    if id in accounts || !NameHeld(accounts, name) then id
    else
      var k :| k in accounts && Lower(accounts[k].name) == Lower(name);
      k
  }

  /** The row that is written is the one with the id: it is there, or no other row has the name. */
  predicate OwnRow(accounts: map<int, AccountRow>, id: int, name: string) {
    id in accounts || !NameHeld(accounts, name)
  }

  function NonZero(values: seq<int>): set<int> {
    set v | v in values && v != 0
  }

  /** The values a table holds for one account. */
  function ValuesOf(table: set<(int, int)>, id: int): set<int> {
    set p | p in table && p.0 == id :: p.1
  }

  function DeleteFor(table: set<(int, int)>, id: int): set<(int, int)> {
    set p | p in table && p.0 != id
  }

  function InsertFor(table: set<(int, int)>, id: int, values: set<int>): set<(int, int)> {
    table + set v | v in values :: (id, v)
  }

  /** DELETE FROM player_data for one name of one account. */
  function DeletePlayer(players: seq<PlayerRow>, name: string, id: int): (r: seq<PlayerRow>)
    ensures forall p :: p in r <==> p in players && !(Lower(p.name) == Lower(name) && p.accountId == Some(id))
  {
    if players == [] then []
    else
      var rest := DeletePlayer(players[1..], name, id);
      if Lower(players[0].name) == Lower(name) && players[0].accountId == Some(id) then rest
      else [players[0]] + rest
  }

  // ----- What the hashes see -----

  /** A component hash, taken to be free of collisions: it determines the bytes it was computed from.  A missing
      string and an empty string feed it the same bytes. */
  datatype Hash =
    | CoreHash(name: string, password: string, experience: int, email: string, surveyDone: bool)
    | NamesHash(names: seq<string>)
    | NumbersHash(numbers: seq<int>)

  datatype Memory = Memory(name: Option<string>, password: string, experience: int, email: Option<string>,
                           surveyDone: bool, names: seq<Option<string>>, races: seq<int>, classes: seq<int>)

  function HashOf(m: Memory, component: nat): Hash {
    if component == CORE then
      CoreHash(m.name.GetOr(""), m.password, m.experience, m.email.GetOr(""), m.surveyDone)
    else if component == CHARACTERS then
      NamesHash(seq(|m.names|, i requires 0 <= i < |m.names| => m.names[i].GetOr("")))
    else if component == RACES then NumbersHash(m.races)
    else NumbersHash(m.classes)
  }

  /** The lower-case names before the first missing slot: the names the link query mentions. */
  function QueryNames(names: seq<Option<string>>): set<string> {
    if names == [] || names[0].None? then {} else {Lower(names[0].value)} + QueryNames(names[1..])
  }

  /** The lower-case names before the first slot that is missing or empty. */
  function LinkedNames(names: seq<string>): set<string> {
    if names == [] || names[0] == "" then {} else {Lower(names[0])} + LinkedNames(names[1..])
  }

  /** The name is in one of the slots, and no slot up to there is missing. */
  predicate QueriedAt(names: seq<Option<string>>, n: nat, key: string) {
    n < |names| && (forall i :: 0 <= i <= n ==> names[i].Some?) && Lower(names[n].value) == key
  }

  lemma {:induction false} QueryNamesAre(names: seq<Option<string>>, key: string)
    ensures key in QueryNames(names) <==> exists n: nat :: QueriedAt(names, n, key)
  {
    if names != [] {
      QueryNamesAre(names[1..], key);
      assert forall i :: 1 <= i < |names| ==> names[1..][i - 1] == names[i];
      if key in QueryNames(names) {
        if Lower(names[0].value) == key {
          assert QueriedAt(names, 0, key);
        } else {
          var n: nat :| QueriedAt(names[1..], n, key);
          assert QueriedAt(names, n + 1, key);
        }
      }
      if exists n: nat :: QueriedAt(names, n, key) {
        var n: nat :| QueriedAt(names, n, key);
        assert names[0].Some?;
        assert n > 0 ==> QueriedAt(names[1..], n - 1, key);
      }
    }
  }

  /** The name is in one of the texts, and no text up to there is empty. */
  predicate LinkedAt(texts: seq<string>, n: nat, key: string) {
    n < |texts| && (forall i :: 0 <= i <= n ==> texts[i] != "") && Lower(texts[n]) == key
  }

  lemma {:induction false} LinkedNamesAre(texts: seq<string>, key: string)
    ensures key in LinkedNames(texts) <==> exists n: nat :: LinkedAt(texts, n, key)
  {
    if texts != [] {
      LinkedNamesAre(texts[1..], key);
      assert forall i :: 1 <= i < |texts| ==> texts[1..][i - 1] == texts[i];
      if key in LinkedNames(texts) {
        if Lower(texts[0]) == key {
          assert LinkedAt(texts, 0, key);
        } else {
          var n: nat :| LinkedAt(texts[1..], n, key);
          assert LinkedAt(texts, n + 1, key);
        }
      }
      if exists n: nat :: LinkedAt(texts, n, key) {
        var n: nat :| LinkedAt(texts, n, key);
        assert texts[0] != "";
        assert n > 0 ==> LinkedAt(texts[1..], n - 1, key);
      }
    }
  }

  // ----- Agreement between hashes and tables -----

  /** The stored columns of one component are what the hash was computed from.  The account name is not among
      them: an existing row keeps its name. */
  ghost predicate Matches(t: Tables, id: int, component: nat, h: Hash) {
    if component == CORE then
      && h.CoreHash? && id in t.accounts
      && t.accounts[id].password == h.password && t.accounts[id].experience == h.experience
      && t.accounts[id].email.GetOr("") == h.email && t.accounts[id].surveyDone == h.surveyDone
    else if component == CHARACTERS then
      h.NamesHash? && forall p :: p in t.players && Lower(p.name) in LinkedNames(h.names) ==> p.accountId == Some(id)
    else if component == RACES then h.NumbersHash? && ValuesOf(t.races, id) == NonZero(h.numbers)
    else h.NumbersHash? && ValuesOf(t.classes, id) == NonZero(h.numbers)
  }

  /** The database holds what is in memory. */
  ghost predicate Stored(t: Tables, id: int, m: Memory) {
    && id in t.accounts
    && t.accounts[id].password == m.password && t.accounts[id].experience == m.experience
    && t.accounts[id].email.GetOr("") == m.email.GetOr("") && t.accounts[id].surveyDone == m.surveyDone
    && ValuesOf(t.races, id) == NonZero(m.races)
    && ValuesOf(t.classes, id) == NonZero(m.classes)
    && forall p :: p in t.players && Lower(p.name) in LinkedNames(Texts(m.names)) ==> p.accountId == Some(id)
  }

  function Texts(names: seq<Option<string>>): seq<string> {
    seq(|names|, i requires 0 <= i < |names| => names[i].GetOr(""))
  }

  lemma MatchesIsStored(t: Tables, id: int, m: Memory)
    ensures (forall i :: 0 <= i < COMPONENT_COUNT ==> Matches(t, id, i, HashOf(m, i))) <==> Stored(t, id, m)
  {
    assert HashOf(m, CHARACTERS).names == Texts(m.names);
    if Stored(t, id, m) {
      forall i | 0 <= i < COMPONENT_COUNT
        ensures Matches(t, id, i, HashOf(m, i))
      {
      }
    }
    if forall i :: 0 <= i < COMPONENT_COUNT ==> Matches(t, id, i, HashOf(m, i)) {
      assert Matches(t, id, CORE, HashOf(m, CORE));
      assert Matches(t, id, CHARACTERS, HashOf(m, CHARACTERS));
      assert Matches(t, id, RACES, HashOf(m, RACES));
      assert Matches(t, id, CLASSES, HashOf(m, CLASSES));
    }
  }

  lemma {:induction false} LinkedNamesAreQueried(names: seq<Option<string>>)
    ensures LinkedNames(Texts(names)) <= QueryNames(names)
  {
    if names != [] && names[0].Some? {
      assert Texts(names)[1..] == Texts(names[1..]);
      LinkedNamesAreQueried(names[1..]);
    }
  }

  /** The link query makes the names component match. */
  lemma LinkMakesMatch(t: Tables, id: int, m: Memory)
    ensures Matches(t.(players := LinkAll(t.players, QueryNames(m.names), id)), id, CHARACTERS, HashOf(m, CHARACTERS))
  {
    assert HashOf(m, CHARACTERS).names == Texts(m.names);
    LinkedNamesAreQueried(m.names);
  }

  /** ... and does not disturb an account none of whose linked names it mentions. */
  lemma LinkKeepsOthers(t: Tables, names: set<string>, id: int, other: int, h: Hash)
    requires Matches(t, other, CHARACTERS, h) && LinkedNames(h.names) !! names
    ensures Matches(t.(players := LinkAll(t.players, names, id)), other, CHARACTERS, h)
  {
    var players' := LinkAll(t.players, names, id);
    forall p | p in players' && Lower(p.name) in LinkedNames(h.names)
      ensures p.accountId == Some(other)
    {
      var i :| 0 <= i < |players'| && players'[i] == p;
      assert Lower(t.players[i].name) == Lower(p.name);
      assert t.players[i] in t.players;
    }
  }

  lemma ReplaceMakesMatch(table: set<(int, int)>, id: int, values: set<int>)
    ensures ValuesOf(InsertFor(DeleteFor(table, id), id, values), id) == values
    ensures forall other :: other != id ==>
              ValuesOf(InsertFor(DeleteFor(table, id), id, values), other) == ValuesOf(table, other)
  {
    var table' := InsertFor(DeleteFor(table, id), id, values);
    forall v | v in values
      ensures v in ValuesOf(table', id)
    {
      assert (id, v) in table';
    }
    forall other | other != id
      ensures ValuesOf(table', other) == ValuesOf(table, other)
    {
      forall v
        ensures v in ValuesOf(table', other) <==> v in ValuesOf(table, other)
      {
        assert v in ValuesOf(table', other) <==> (other, v) in table';
        assert v in ValuesOf(table, other) <==> (other, v) in table;
      }
    }
  }

  // ----- What a save writes -----

  /** The components a save has to write. */
  datatype Flags = Flags(core: bool, characters: bool, races: bool, classes: bool) {
    predicate Has(component: nat) {
      if component == CORE then core
      else if component == CHARACTERS then characters
      else if component == RACES then races
      else classes
    }
  }

  /** INSERT ... ON DUPLICATE KEY UPDATE: an existing row keeps its name. */
  function Upsert(accounts: map<int, AccountRow>, id: int, m: Memory): map<int, AccountRow>
    requires UniqueAccounts(accounts)
  {
    var k := RowOf(accounts, id, m.name.GetOr(""));
    accounts[k := AccountRow(if k in accounts then accounts[k].name else m.name.GetOr(""),
                             m.password, m.experience, m.email, m.surveyDone)]
  }

  datatype UnlockTable = Races | Classes

  function Replace(t: Tables, table: UnlockTable, id: int, values: set<int>): Tables {
    match table
    case Races => t.(races := InsertFor(DeleteFor(t.races, id), id, values))
    case Classes => t.(classes := InsertFor(DeleteFor(t.classes, id), id, values))
  }

  function Written(t: Tables, id: int, m: Memory, f: Flags): Tables
    requires UniqueAccounts(t.accounts)
  {
    Tables(if f.core then Upsert(t.accounts, id, m) else t.accounts,
           if f.characters then LinkAll(t.players, QueryNames(m.names), id) else t.players,
           if f.races then InsertFor(DeleteFor(t.races, id), id, NonZero(m.races)) else t.races,
           if f.classes then InsertFor(DeleteFor(t.classes, id), id, NonZero(m.classes)) else t.classes)
  }

  /** The upsert respects both keys. */
  lemma UpsertKeepsKeys(accounts: map<int, AccountRow>, id: int, m: Memory)
    requires UniqueAccounts(accounts)
    ensures UniqueAccounts(Upsert(accounts, id, m))
  {
  }

  /** Two connections that register the same name: the first save makes a row, the second one, which reports the id
      of that row, overwrites it. */
  lemma SecondRegistrationOverwrites(m1: Memory, m2: Memory)
    requires m1.name.Some? && m2.name.Some? && Lower(m1.name.value) == Lower(m2.name.value)
    ensures var first := Upsert(map[], 1, m1);
            var id := RowOf(first, 2, m2.name.value);
            && first.Keys == {1} && id == 1
            && Upsert(first, id, m2)
                 == map[1 := AccountRow(m1.name.value, m2.password, m2.experience, m2.email, m2.surveyDone)]
  {
    var first := Upsert(map[], 1, m1);
    assert first[1].name == m1.name.value && NameHeld(first, m2.name.value);
  }

  /** What a component needs for a save to leave it matching: one that is written has to be written to the account's
      own row, one that is not has to match already. */
  ghost predicate WillMatch(t: Tables, id: int, m: Memory, f: Flags, component: nat)
    requires component < COMPONENT_COUNT
  {
    if !f.Has(component) then Matches(t, id, component, HashOf(m, component))
    else component == CORE ==> OwnRow(t.accounts, id, m.name.GetOr(""))
  }

  ghost predicate AllWillMatch(t: Tables, id: int, m: Memory, f: Flags) {
    forall i :: 0 <= i < COMPONENT_COUNT ==> WillMatch(t, id, m, f, i)
  }

  /** A save leaves a component matching exactly under this condition. */
  lemma WrittenMatches(t: Tables, id: int, m: Memory, f: Flags, component: nat)
    requires component < COMPONENT_COUNT && UniqueAccounts(t.accounts)
    ensures Matches(Written(t, id, m, f), id, component, HashOf(m, component)) <==> WillMatch(t, id, m, f, component)
  {
    LinkMakesMatch(t, id, m);
    ReplaceMakesMatch(t.races, id, NonZero(m.races));
    ReplaceMakesMatch(t.classes, id, NonZero(m.classes));
  }

  /** A save stores the whole account if and only if every component it does not write matched before and the core
      row, if it writes it, is the account's own. */
  lemma SaveStoresExactly(t: Tables, id: int, m: Memory, f: Flags)
    requires UniqueAccounts(t.accounts)
    ensures Stored(Written(t, id, m, f), id, m) <==> AllWillMatch(t, id, m, f)
  {
    MatchesIsStored(Written(t, id, m, f), id, m);
    forall i | 0 <= i < COMPONENT_COUNT
      ensures Matches(Written(t, id, m, f), id, i, HashOf(m, i)) <==> WillMatch(t, id, m, f, i)
    {
      WrittenMatches(t, id, m, f, i);
    }
  }

  /** A save of one account leaves a component of another account as it was, provided it links none of the other
      account's characters and does not write to the other account's row. */
  lemma WrittenKeepsOthers(t: Tables, id: int, m: Memory, f: Flags, other: int, component: nat, h: Hash)
    requires other != id && component < COMPONENT_COUNT && Matches(t, other, component, h)
    requires UniqueAccounts(t.accounts)
    requires component == CHARACTERS ==> LinkedNames(h.names) !! QueryNames(m.names)
    requires component == CORE && f.core ==> other != RowOf(t.accounts, id, m.name.GetOr(""))
    ensures Matches(Written(t, id, m, f), other, component, h)
  {
    if component == CHARACTERS && f.characters {
      LinkKeepsOthers(t, QueryNames(m.names), id, other, h);
    }
    ReplaceMakesMatch(t.races, id, NonZero(m.races));
    ReplaceMakesMatch(t.classes, id, NonZero(m.classes));
  }

  // ----- The database -----

  /** The tables respect their keys, and ids are below the counter. */
  ghost predicate Sound(t: Tables, nextId: int) {
    Keyed(t) && forall id :: id in t.accounts ==> 0 < id < nextId
  }

  class Database {
    var committed: Tables
    var working: Tables
    var open: bool
    /** The auto-increment counter of account_data, which no rollback turns back. */
    var nextId: int
    /** How many queries have failed so far. */
    ghost var failures: nat

    ghost predicate Valid()
      reads this
    {
      nextId > 0 && Sound(committed, nextId) && (open ==> Sound(working, nextId))
    }

    constructor ()
      ensures Valid() && !open
    {
      committed := Tables(map[], [], {}, {});
      working := Tables(map[], [], {}, {});
      open := false;
      nextId := 1;
      failures := 0;
    }

    /** Whatever may fail without a change of the tables: a query that reads, escaping a text, a query that has to fit
        into its buffer. */
    method Attempt() returns (ok: bool)
      modifies `failures
      ensures failures == old(failures) + if ok then 0 else 1
    {
      ok := *;
      if !ok {
        failures := failures + 1;
      }
    }

    method StartTransaction() returns (ok: bool)
      requires Valid() && !open
      modifies `working, `open, `failures
      ensures Valid() && ok == open && (ok ==> working == committed)
      ensures failures == old(failures) + if ok then 0 else 1
    {
      ok := Attempt();
      if ok {
        working, open := committed, true;
      }
    }

    /** Runs a statement of the open transaction that would change the working state to `next`. */
    method Execute(next: Tables) returns (ok: bool)
      requires Valid() && open && Sound(next, nextId)
      modifies `working, `failures
      ensures Valid() && working == if ok then next else old(working)
      ensures failures == old(failures) + if ok then 0 else 1
    {
      ok := Attempt();
      if ok {
        working := next;
      }
    }

    /** Runs a statement outside any transaction, which is committed at once. */
    method ExecuteAlone(next: Tables) returns (ok: bool)
      requires Valid() && !open && Sound(next, nextId)
      modifies `committed, `failures
      ensures Valid() && committed == if ok then next else old(committed)
      ensures failures == old(failures) + if ok then 0 else 1
    {
      ok := Attempt();
      if ok {
        committed := next;
      }
    }

    method Commit() returns (ok: bool)
      requires Valid() && open
      modifies `committed, `open, `failures
      ensures Valid() && !open && committed == if ok then working else old(committed)
      ensures failures == old(failures) + if ok then 0 else 1
    {
      ok := Attempt();
      if ok {
        committed := working;
      }
      open := false;
    }

    method Rollback()
      requires Valid()
      modifies `open
      ensures Valid() && !open
    {
      open := false;
    }
  }

  // ----- Connected views of accounts -----

  const GENERATIONS := 0x1_0000_0000_0000_0000

  /** One in-memory copy of an account, as a connection holds it. */
  class View {
    var id: int
    var name: Option<string>
    var password: string
    var experience: int
    var email: Option<string>
    var surveyDone: bool
    var names: seq<Option<string>>
    var races: seq<int>
    var classes: seq<int>
    var hash: seq<Hash>
    var dirty: seq<nat>
    var saved: seq<nat>
    var initialized: bool

    ghost predicate Shape()
      reads this
    {
      && |names| == MAX_CHARS_PER_ACCOUNT && |races| == MAX_UNLOCKED_RACES && |classes| == MAX_UNLOCKED_CLASSES
      && |hash| == |dirty| == |saved| == COMPONENT_COUNT
      && (forall i :: 0 <= i < COMPONENT_COUNT ==> dirty[i] < GENERATIONS)
      && id >= 0 && (initialized ==> id > 0)
    }

    function Mem(): Memory
      reads this
    {
      Memory(name, password, experience, email, surveyDone, names, races, classes)
    }

    /** The component differs from what was last saved, or is known to. */
    ghost predicate Pending(component: nat)
      requires Shape() && component < COMPONENT_COUNT
      reads this
    {
      !initialized || hash[component] != HashOf(Mem(), component) || dirty[component] != saved[component]
    }

    /** Whatever this view believes to be saved is committed. */
    ghost predicate Agrees(t: Tables)
      requires Shape()
      reads this
    {
      initialized ==> forall i :: 0 <= i < COMPONENT_COUNT ==> Matches(t, id, i, hash[i])
    }

    /** The components that a save would write. */
    ghost function PendingFlags(): (f: Flags)
      requires Shape()
      reads this
      ensures forall i :: 0 <= i < COMPONENT_COUNT ==> (f.Has(i) <==> Pending(i))
    {
      Flags(Pending(CORE), Pending(CHARACTERS), Pending(RACES), Pending(CLASSES))
    }

    /** The id the account has after a successful save: a new account gets a fresh one, or that of the row that has
        its name. */
    ghost function SavedId(t: Tables, nextId: int): int
      requires UniqueAccounts(t.accounts)
      reads this
    {
      if id != 0 then id else RowOf(t.accounts, nextId, name.GetOr(""))
    }

    /** A successful save will leave everything in memory stored. */
    ghost predicate WillStore(t: Tables, nextId: int)
      requires Shape() && UniqueAccounts(t.accounts)
      reads this
    {
      AllWillMatch(t, SavedId(t, nextId), Mem(), PendingFlags())
    }

    method ComponentHashes() returns (hashes: seq<Hash>)
      ensures |hashes| == COMPONENT_COUNT
      ensures forall i :: 0 <= i < COMPONENT_COUNT ==> hashes[i] == HashOf(Mem(), i)
    {
      hashes := [HashOf(Mem(), CORE), HashOf(Mem(), CHARACTERS), HashOf(Mem(), RACES), HashOf(Mem(), CLASSES)];
    }

    method MarkClean()
      requires Shape() && id > 0
      modifies `hash, `dirty, `saved, `initialized
      ensures Shape() && initialized
      ensures forall i :: 0 <= i < COMPONENT_COUNT ==> hash[i] == HashOf(Mem(), i) && !Pending(i)
    {
      var hashes := ComponentHashes();
      for i := 0 to COMPONENT_COUNT
        invariant |hash| == |dirty| == |saved| == COMPONENT_COUNT
        invariant forall k :: 0 <= k < COMPONENT_COUNT ==> dirty[k] < GENERATIONS
        invariant forall k :: 0 <= k < i ==> hash[k] == hashes[k] && dirty[k] == saved[k] == 0
      {
        hash, dirty, saved := hash[i := hashes[i]], dirty[i := 0], saved[i := 0];
      }
      initialized := true;
    }

    /** Makes the generations of a component differ exactly when the component is pending. */
    method DetectDirty() returns (hashes: seq<Hash>)
      requires Shape()
      modifies `dirty
      ensures Shape() && |hashes| == COMPONENT_COUNT
      ensures forall i :: 0 <= i < COMPONENT_COUNT ==> hashes[i] == HashOf(Mem(), i)
      ensures forall i :: 0 <= i < COMPONENT_COUNT ==>
                (dirty[i] != saved[i] <==> old(Pending(i))) && (Pending(i) <==> old(Pending(i)))
    {
      hashes := ComponentHashes();
      for i := 0 to COMPONENT_COUNT
        invariant |dirty| == COMPONENT_COUNT
        invariant forall k :: 0 <= k < COMPONENT_COUNT ==> dirty[k] < GENERATIONS
        invariant forall k :: 0 <= k < i ==> (dirty[k] != saved[k] <==> old(Pending(k)))
        invariant forall k :: i <= k < COMPONENT_COUNT ==> dirty[k] == old(dirty)[k]
      {
        if !initialized || hash[i] != hashes[i] {
          if dirty[i] == saved[i] {
            dirty := dirty[i := (dirty[i] + 1) % GENERATIONS];
          }
        }
      }
    }

    function DirtyComponents(): (f: Flags)
      requires Shape()
      reads this
      ensures forall i :: 0 <= i < COMPONENT_COUNT ==> (f.Has(i) <==> dirty[i] != saved[i])
    {
      Flags(dirty[CORE] != saved[CORE], dirty[CHARACTERS] != saved[CHARACTERS],
            dirty[RACES] != saved[RACES], dirty[CLASSES] != saved[CLASSES])
    }

    /** After a successful commit: the detected hashes are the saved ones. */
    method MarkSaved(hashes: seq<Hash>)
      requires Shape() && |hashes| == COMPONENT_COUNT && id > 0
      modifies `hash, `saved, `initialized
      ensures Shape() && initialized && hash == hashes && saved == dirty
    {
      for i := 0 to COMPONENT_COUNT
        invariant |hash| == |saved| == COMPONENT_COUNT
        invariant forall k :: 0 <= k < i ==> hash[k] == hashes[k] && saved[k] == dirty[k]
      {
        hash, saved := hash[i := hashes[i]], saved[i := dirty[i]];
      }
      initialized := true;
    }

    /** Takes over everything another view of the same account holds, except its name. */
    method CopyFrom(source: View)
      requires source != this
      modifies this
      ensures id == old(id) && name == old(name)
      ensures experience == source.experience && surveyDone == source.surveyDone
      ensures names == source.names && races == source.races && classes == source.classes
      ensures password == source.password && email == source.email
      ensures hash == source.hash && dirty == source.dirty && saved == source.saved
      ensures initialized == source.initialized
    {
      experience, surveyDone := source.experience, source.surveyDone;
      names, races, classes := source.names, source.races, source.classes;
      hash, dirty, saved := source.hash, source.dirty, source.saved;
      initialized := source.initialized;
      password, email := source.password, source.email;
    }
  }

  // ----- The account service -----

  /** No view of another account lists, among its saved names, a character this query would link. */
  ghost predicate NamesApart(v: View, names: set<string>)
    requires v.Shape()
    reads v
  {
    v.initialized && v.hash[CHARACTERS].NamesHash? ==> LinkedNames(v.hash[CHARACTERS].names) !! names
  }

  /** The view agrees with the tables and still does after a save of `a`: the save stores the account, if the view is
      one of it; else it takes no character from the view and does not write to the view's row. */
  ghost predicate Keeps(v: View, a: View, t: Tables, nextId: int)
    requires v.Shape() && a.Shape() && UniqueAccounts(t.accounts)
    reads v, a
  {
    && v.Agrees(t)
    && if v.id == a.SavedId(t, nextId) then a.WillStore(t, nextId)
       else Untouched(v, a.SavedId(t, nextId), a.Mem(), a.PendingFlags(), t)
  }

  /** Writing these components of another account takes nothing from the view. */
  ghost predicate Untouched(v: View, id: int, m: Memory, f: Flags, t: Tables)
    requires v.Shape() && UniqueAccounts(t.accounts)
    reads v
  {
    && NamesApart(v, QueryNames(m.names))
    && (f.core ==> v.id != RowOf(t.accounts, id, m.name.GetOr("")))
  }

  /** The two views hold the same account state, up to the account name. */
  ghost predicate SameAccount(v: View, w: View)
    reads v, w
  {
    && v.Mem() == w.Mem().(name := v.name)
    && v.hash == w.hash && v.dirty == w.dirty && v.saved == w.saved && v.initialized == w.initialized
  }

  class Service {
    const db: Database
    var views: seq<View?>

    constructor (db: Database)
      ensures this.db == db && views == []
    {
      this.db := db;
      views := [];
    }

    ghost function Objects(): set<View>
      reads this
    {
      set v: View | v in views
    }

    /** Between operations no transaction is open. */
    ghost predicate Idle()
      reads this, db, Objects()
    {
      && db.Valid() && !db.open
      && forall v :: v in Objects() ==> v.Shape() && v.id < db.nextId
    }

    /** Every view agrees with the committed state. */
    ghost predicate AllAgree()
      requires Idle()
      reads this, db, Objects()
    {
      forall v :: v in Objects() ==> v.Agrees(db.committed)
    }

    /** The operation has succeeded exactly if no query of it has failed. */
    twostate predicate NoneFailed(ok: bool)
      reads db
    {
      db.failures >= old(db.failures) && (ok <==> db.failures == old(db.failures))
    }

    method SaveCharacterLinks(a: View) returns (ok: bool)
      requires db.Valid() && db.open && a.Shape() && a.id > 0
      modifies db`working, db`failures
      ensures db.Valid() && NoneFailed(ok)
      ensures ok ==>
                db.working == old(db.working).(players := LinkAll(old(db.working).players, QueryNames(a.names), a.id))
      ensures !ok ==> db.working == old(db.working)
    {
      var mentioned: set<string> := {};
      var i := 0;
      assert a.names[0..] == a.names;
      while i < MAX_CHARS_PER_ACCOUNT && a.names[i].Some?
        modifies db`failures
        invariant 0 <= i <= MAX_CHARS_PER_ACCOUNT && db.failures == old(db.failures)
        invariant QueryNames(a.names) == mentioned + QueryNames(a.names[i..])
      {
        var escapedAndFits := db.Attempt();
        if !escapedAndFits {
          return false;
        }
        assert a.names[i..][1..] == a.names[i + 1..];
        mentioned := mentioned + {Lower(a.names[i].value)};
        i := i + 1;
      }
      if i == 0 {
        LinkNothing(db.working.players, a.id);
        return true;
      }
      var fits := db.Attempt();
      if !fits {
        return false;
      }
      LinkKeepsKeys(db.working.players, mentioned, a.id);
      ok := db.Execute(db.working.(players := LinkAll(db.working.players, mentioned, a.id)));
    }

    /** Replaces the values of one account in one of the two unlock tables. */
    method SaveIntegerSet(id: int, table: UnlockTable, values: seq<int>) returns (ok: bool)
      requires db.Valid() && db.open
      modifies db`working, db`failures
      ensures db.Valid() && NoneFailed(ok)
      ensures ok ==> db.working == Replace(old(db.working), table, id, NonZero(values))
    {
      ghost var t0 := db.working;
      ok := db.Execute(match table
        case Races => db.working.(races := DeleteFor(db.working.races, id))
        case Classes => db.working.(classes := DeleteFor(db.working.classes, id)));
      if !ok {
        return;
      }
      var inserted: set<int> := {};
      for i := 0 to |values|
        modifies db`failures
        invariant inserted == NonZero(values[..i]) && db.failures == old(db.failures)
      {
        assert values[..i + 1] == values[..i] + [values[i]];
        if values[i] != 0 {
          var fits := db.Attempt();
          if !fits {
            return false;
          }
          inserted := inserted + {values[i]};
        }
      }
      assert values[..|values|] == values;
      if inserted == {} {
        return true;
      }
      var fits := db.Attempt();
      if !fits {
        return false;
      }
      ok := db.Execute(match table
        case Races => db.working.(races := InsertFor(db.working.races, id, inserted))
        case Classes => db.working.(classes := InsertFor(db.working.classes, id, inserted)));
    }

    /** Writes the core row.  A new account gets its id here, and keeps it even if the transaction is rolled
        back. */
    method SaveCore(a: View) returns (ok: bool)
      requires db.Valid() && db.open && 0 <= a.id < db.nextId
      modifies db`working, db`nextId, db`failures, a`id
      ensures db.Valid() && db.nextId >= old(db.nextId) && 0 <= a.id < db.nextId && NoneFailed(ok)
      ensures a.id == old(a.id) || (old(a.id) == 0 && a.id == old(a.SavedId(db.working, db.nextId)))
      ensures a.id == if ok then old(a.SavedId(db.working, db.nextId)) else old(a.id)
      ensures ok ==> db.working == old(db.working).(accounts := Upsert(old(db.working).accounts, a.id, a.Mem()))
      ensures !ok ==> db.working == old(db.working)
      // a new account gets a fresh id exactly when nobody has its name
      ensures ok && old(a.id) == 0 ==>
                (a.id == old(db.nextId) <==> !NameHeld(old(db.working).accounts, a.name.GetOr("")))
    {
      var newId := a.id;
      if a.id == 0 {
        newId := RowOf(db.working.accounts, db.nextId, a.name.GetOr(""));
        db.nextId := db.nextId + 1;
      }
      UpsertKeepsKeys(db.working.accounts, newId, a.Mem());
      ok := db.Execute(db.working.(accounts := Upsert(db.working.accounts, newId, a.Mem())));
      if ok && a.id == 0 {
        a.id := newId;
      }
    }

    /** The statements between START TRANSACTION and COMMIT. */
    method WriteComponents(a: View, f: Flags) returns (ok: bool)
      requires db.Valid() && db.open && a.Shape() && a.id < db.nextId && (a.id == 0 ==> f.core)
      modifies db`working, db`nextId, db`failures, a`id
      ensures db.Valid() && db.nextId >= old(db.nextId) && a.Shape() && a.id < db.nextId && NoneFailed(ok)
      ensures a.id == old(a.id) || (old(a.id) == 0 && a.id == old(a.SavedId(db.working, db.nextId)))
      ensures ok ==> a.id > 0 && a.id == old(a.SavedId(db.working, db.nextId))
      ensures ok ==> db.working == Written(old(db.working), a.id, a.Mem(), f)
    {
      if f.core {
        ok := SaveCore(a);
        if !ok {
          return;
        }
      }
      if f.characters {
        ok := SaveCharacterLinks(a);
        if !ok {
          return;
        }
      }
      ok := WriteUnlocks(a, f);
    }

    method WriteUnlocks(a: View, f: Flags) returns (ok: bool)
      requires db.Valid() && db.open
      modifies db`working, db`failures
      ensures db.Valid() && NoneFailed(ok)
      ensures ok ==> db.working == Written(old(db.working), a.id, a.Mem(), Flags(false, false, f.races, f.classes))
    {
      if f.races {
        ok := SaveIntegerSet(a.id, Races, a.races);
        if !ok {
          return;
        }
      }
      if f.classes {
        ok := SaveIntegerSet(a.id, Classes, a.classes);
        if !ok {
          return;
        }
      }
      ok := true;
    }

    /** Copies the saved account into every other connected view of it. */
    method Synchronize(source: View)
      modifies Objects() - {source}
      ensures forall v :: v in Objects() ==> v.id == old(v.id)
      ensures forall v :: v in Objects() && v.id != source.id ==> unchanged(v)
      ensures forall v :: v in Objects() && v != source && v.id == source.id ==> SameAccount(v, source)
    {
      for i := 0 to |views|
        invariant forall v :: v in Objects() ==> v.id == old(v.id)
        invariant forall v :: v in Objects() && v.id != source.id ==> unchanged(v)
        invariant forall v: View :: v in views[..i] && v != source && v.id == source.id ==> SameAccount(v, source)
      {
        var target := views[i];
        if target != null && target.id == source.id && target != source {
          target.CopyFrom(source);
        }
      }
    }

    /** Saves the pending components of an account in one transaction. */
    method SaveChecked(a: View) returns (ok: bool)
      requires Idle() && a.Shape() && a.id < db.nextId
      modifies db, a, Objects()
      ensures Idle() && a.Shape() && a.id < db.nextId && db.nextId >= old(db.nextId)
      ensures a.Mem() == old(a.Mem())
      ensures a.id == old(a.id) || (old(a.id) == 0 && a.id == old(a.SavedId(db.committed, db.nextId)))
      // the result is true exactly if the account has a name and no query fails
      ensures a.name.Some? ==> NoneFailed(ok)
      ensures a.name.None? ==> !ok && db.failures == old(db.failures)
      // true: no component is pending, and everything in memory is stored exactly if what was not pending matched
      // and the core row, if it was pending, is the account's own
      ensures ok ==> a.id == old(a.SavedId(db.committed, db.nextId))
      ensures ok ==> forall i :: 0 <= i < COMPONENT_COUNT ==> !a.Pending(i)
      ensures ok ==> (Stored(db.committed, a.id, a.Mem()) <==> old(a.WillStore(db.committed, db.nextId)))
      // then the stored e-mail is exactly the one in memory unless the core row was not written: a missing and an
      // empty e-mail look alike to the hash
      ensures ok && Stored(db.committed, a.id, a.Mem()) ==>
                (EmailStored(db.committed, a.id, a.email) <==>
                 old(a.Pending(CORE)) || old(EmailStored(db.committed, a.id, a.email)))
      // what is committed is what was there with the pending components written, and the other views of the account
      // hold the same state as this one
      ensures ok ==> db.committed == Written(old(db.committed), a.id, a.Mem(), old(a.PendingFlags()))
      ensures ok && old(a.PendingFlags() != Flags(false, false, false, false)) ==>
                forall v :: v in Objects() && v != a && v.id == a.id ==> SameAccount(v, a)
      ensures forall v :: v in Objects() && v != a && v.id != a.id ==> unchanged(v)
      // false: nothing is stored, and what was pending is still pending
      ensures !ok ==> db.committed == old(db.committed)
      ensures !ok ==> forall i :: 0 <= i < COMPONENT_COUNT ==> (a.Pending(i) <==> old(a.Pending(i)))
      // a save of a named account with nothing pending is skipped, and returns true
      ensures old(a.name.Some? && a.PendingFlags() == Flags(false, false, false, false)) ==>
                ok && db.committed == old(db.committed)
      // every view for which the save is harmless agrees
      ensures forall v :: v in Objects() && old(Keeps(v, a, db.committed, db.nextId)) ==> v.Agrees(db.committed)
      // other views learn no other names
      ensures forall v :: v in Objects() ==> v.names == old(v.names) || (v.id == a.id && v.names == a.names)
      ensures forall v :: v in Objects() && v != a ==> v.id == old(v.id)
    {
      if a.name.None? {
        return false;
      }
      var hashes, f := FindPending(a);
      if f == Flags(false, false, false, false) {
        NothingToSave(a, db.committed, db.nextId);
        return true;
      }
      ok := SaveComponents(a, f, hashes);
    }

    /** Finds out which components are pending, which changes nothing about that. */
    method FindPending(a: View) returns (hashes: seq<Hash>, f: Flags)
      requires Idle() && a.Shape()
      modifies a`dirty
      ensures Idle() && a.Shape() && |hashes| == COMPONENT_COUNT
      ensures forall i :: 0 <= i < COMPONENT_COUNT ==> hashes[i] == HashOf(a.Mem(), i)
      ensures forall i :: 0 <= i < COMPONENT_COUNT ==> (a.Pending(i) <==> old(a.Pending(i)))
      ensures f == a.PendingFlags() == old(a.PendingFlags())
      ensures a.WillStore(db.committed, db.nextId) == old(a.WillStore(db.committed, db.nextId))
      ensures forall v :: v in Objects() && old(Keeps(v, a, db.committed, db.nextId)) ==>
                Keeps(v, a, db.committed, db.nextId)
    {
      hashes := a.DetectDirty();
      f := a.DirtyComponents();
    }

    /** Writes the given components and publishes the result. */
    method SaveComponents(a: View, f: Flags, hashes: seq<Hash>) returns (ok: bool)
      requires Idle() && a.Shape() && a.id < db.nextId && |hashes| == COMPONENT_COUNT && f == a.PendingFlags()
      requires forall i :: 0 <= i < COMPONENT_COUNT ==> hashes[i] == HashOf(a.Mem(), i)
      modifies db, a, Objects()
      ensures Idle() && a.Shape() && a.id < db.nextId && db.nextId >= old(db.nextId)
      ensures a.Mem() == old(a.Mem())
      ensures a.id == old(a.id) || (old(a.id) == 0 && a.id == old(a.SavedId(db.committed, db.nextId)))
      ensures NoneFailed(ok) && (ok ==> a.id == old(a.SavedId(db.committed, db.nextId)))
      ensures ok ==> forall i :: 0 <= i < COMPONENT_COUNT ==> !a.Pending(i)
      ensures ok ==> db.committed == Written(old(db.committed), a.id, a.Mem(), f)
      ensures ok ==> forall v :: v in Objects() && v != a && v.id == a.id ==> SameAccount(v, a)
      ensures forall v :: v in Objects() && v != a && v.id != a.id ==> unchanged(v)
      ensures ok ==> (Stored(db.committed, a.id, a.Mem()) <==> old(a.WillStore(db.committed, db.nextId)))
      ensures !ok ==> db.committed == old(db.committed)
      ensures !ok ==> forall i :: 0 <= i < COMPONENT_COUNT ==> (a.Pending(i) <==> old(a.Pending(i)))
      ensures forall v :: v in Objects() && old(Keeps(v, a, db.committed, db.nextId)) ==> v.Agrees(db.committed)
      ensures forall v :: v in Objects() ==> v.names == old(v.names) || (v.id == a.id && v.names == a.names)
      ensures forall v :: v in Objects() && v != a ==> v.id == old(v.id)
    {
      ghost var t0, m, id := db.committed, a.Mem(), a.SavedId(db.committed, db.nextId);
      SaveStoresExactly(t0, id, m, f);
      assert Stored(Written(t0, id, m, f), id, m) <==> a.WillStore(t0, db.nextId);
      ok := RunTransaction(a, f);
      if !ok {
        return;
      }
      OthersAgree(Objects(), t0, a.id, a.Mem(), f);
      assert a.id == id && a.Mem() == m && db.committed == Written(t0, id, m, f);
      PublishSave(a, hashes);
      assert a.id == id && a.Mem() == m;
    }

    /** Records a committed save in its view, and then in the other views of the account. */
    method PublishSave(a: View, hashes: seq<Hash>)
      requires db.Valid() && !db.open && a.Shape() && 0 < a.id < db.nextId && |hashes| == COMPONENT_COUNT
      requires forall i :: 0 <= i < COMPONENT_COUNT ==> hashes[i] == HashOf(a.Mem(), i)
      requires forall v :: v in Objects() ==> v.Shape() && v.id < db.nextId
      modifies a, Objects()
      ensures Idle() && a.Shape() && a.Mem() == old(a.Mem()) && a.id == old(a.id)
      ensures forall i :: 0 <= i < COMPONENT_COUNT ==> !a.Pending(i)
      // the views of the account hold the same state and agree exactly if it is stored, the others are left alone
      ensures forall v :: v in Objects() && v != a && v.id == a.id ==> SameAccount(v, a)
      ensures forall v :: v in Objects() && v.id == a.id ==>
                (v.Agrees(db.committed) <==> Stored(db.committed, a.id, a.Mem()))
      ensures forall v :: v in Objects() && v.id != a.id ==> unchanged(v)
      ensures forall v :: v in Objects() ==> v.names == old(v.names) || (v.id == a.id && v.names == a.names)
      ensures forall v :: v in Objects() ==> v.id == old(v.id)
    {
      a.MarkSaved(hashes);
      Synchronize(a);
      CleanAgrees(a, db.committed);
      SameAgree(Objects(), a, db.committed);
    }

    /** Escaping the texts, then START TRANSACTION to COMMIT, or to ROLLBACK when anything fails. */
    method RunTransaction(a: View, f: Flags) returns (ok: bool)
      requires db.Valid() && !db.open && a.Shape() && a.id < db.nextId && (a.id == 0 ==> f.core)
      modifies db, a`id
      ensures db.Valid() && !db.open && db.nextId >= old(db.nextId) && a.Shape() && a.id < db.nextId && NoneFailed(ok)
      ensures a.id == old(a.id) || (old(a.id) == 0 && a.id == old(a.SavedId(db.committed, db.nextId)))
      ensures ok ==> a.id > 0 && a.id == old(a.SavedId(db.committed, db.nextId))
      ensures ok ==> db.committed == Written(old(db.committed), a.id, a.Mem(), f)
      ensures !ok ==> db.committed == old(db.committed)
    {
      var escaped := db.Attempt();
      if !escaped {
        return false;
      }
      ok := db.StartTransaction();
      if !ok {
        return;
      }
      ok := WriteComponents(a, f);
      if ok {
        ok := db.Commit();
      }
      if !ok {
        db.Rollback();
      }
    }

    // ----- Loading character names -----

    /** Deletes the surplus rows of every character that has several rows with the same name, in whatever case; any of
        the queries may fail.  One row of every name is kept, and if no query fails no more than that. */
    method CleanupDuplicates(a: View)
      requires db.Valid() && !db.open
      modifies db`committed, db`failures
      ensures db.Valid() && FewerPlayers(old(db.committed), db.committed) && db.failures >= old(db.failures)
      ensures OneOfEachKept(old(db.committed).players, db.committed.players, a.id)
      ensures db.failures == old(db.failures) && a.id > 0 ==> NoDuplicates(db.committed.players, a.id)
    {
      var listed := db.Attempt();
      if !listed || a.id <= 0 {
        return;
      }
      ghost var before, failed := db.committed.players, db.failures;
      var keys := KeysOf(db.committed.players, a.id);
      for i := 0 to |keys|
        invariant db.Valid() && FewerPlayers(old(db.committed), db.committed) && db.failures >= failed
        invariant Cleaned(before, db.committed.players, a.id, keys, i, db.failures == failed)
      {
        RemoveSurplus(a, before, keys, i, db.failures == failed);
      }
      if db.failures == failed {
        AllCleaned(before, db.committed.players, a.id);
      }
    }

    /** Deletes the surplus rows of one name, unless they were deleted before. */
    method RemoveSurplus(a: View, ghost before: seq<PlayerRow>, keys: seq<string>, i: nat, ghost smooth: bool)
      requires db.Valid() && !db.open && i < |keys|
      requires Cleaned(before, db.committed.players, a.id, keys, i, smooth)
      modifies db`committed, db`failures
      ensures db.Valid() && FewerPlayers(old(db.committed), db.committed) && db.failures >= old(db.failures)
      ensures Cleaned(before, db.committed.players, a.id, keys, i + 1, smooth && db.failures == old(db.failures))
    {
      var count := RowCount(db.committed.players, keys[i], Some(a.id));
      if count > 1 && keys[i] !in keys[..i] {
        DeleteSomeCounts(db.committed.players, keys[i], a.id, count - 1);
        var deleted := db.ExecuteAlone(
          db.committed.(players := DeleteSome(db.committed.players, keys[i], a.id, count - 1)));
      }
    }

    method ForgetNames(a: View)
      requires |a.names| == MAX_CHARS_PER_ACCOUNT
      modifies a`names
      ensures a.names == Slots([])
    {
      for i := 0 to MAX_CHARS_PER_ACCOUNT
        invariant |a.names| == MAX_CHARS_PER_ACCOUNT && forall k :: 0 <= k < i ==> a.names[k] == None
      {
        a.names := a.names[i := None];
      }
    }

    /** Replaces the character names by those of the account's rows.  The names are forgotten first, so a
        failing query leaves none. */
    method LoadCharacters(a: View) returns (loaded: bool)
      requires db.Valid() && !db.open && |a.names| == MAX_CHARS_PER_ACCOUNT
      modifies a`names, db`committed, db`failures
      ensures db.Valid() && FewerPlayers(old(db.committed), db.committed) && db.failures >= old(db.failures)
      ensures OneOfEachKept(old(db.committed).players, db.committed.players, a.id)
      ensures a.names == if loaded then Slots(NamesOf(db.committed.players, a.id)) else Slots([])
      // the names are those of all rows of the account, as many as there are slots for
      ensures if loaded then Listed(a.names, db.committed.players, a.id) else db.failures > old(db.failures)
      ensures db.failures == old(db.failures) && a.id > 0 ==> NoDuplicates(db.committed.players, a.id)
      ensures NoDuplicates(old(db.committed).players, a.id) ==> db.committed == old(db.committed)
    {
      ForgetNames(a);
      DuplicateKeys(db.committed.players, a.id);
      var counted := db.Attempt();
      if counted && HasDuplicates(KeysOf(db.committed.players, a.id)) {
        CleanupDuplicates(a);
      }
      AllRowsListed(db.committed.players, a.id);
      loaded := db.Attempt();
      if !loaded {
        return;
      }
      var rows := NamesOf(db.committed.players, a.id);
      var i := 0;
      while i < |rows| && i < MAX_CHARS_PER_ACCOUNT
        modifies a`names
        invariant 0 <= i <= |rows| && i <= MAX_CHARS_PER_ACCOUNT && |a.names| == MAX_CHARS_PER_ACCOUNT
        invariant forall k :: 0 <= k < MAX_CHARS_PER_ACCOUNT ==> a.names[k] == if k < i then Some(rows[k]) else None
      {
        a.names := a.names[i := Some(rows[i])];
        i := i + 1;
      }
    }

    // ----- Loading an account -----

    /** The values of a table for one account, in the order the query yields them. */
    method Fetch(values: set<int>) returns (rows: seq<int>)
      ensures |rows| == |values| && forall v :: v in rows <==> v in values
    {
      rows := [];
      var rest := values;
      while rest != {}
        invariant |rows| + |rest| == |values| && rest <= values
        invariant forall v :: v in values <==> v in rows || v in rest
        decreases rest
      {
        ghost var w := ElementOf(rest);
        var v :| v in rest;
        rows, rest := rows + [v], rest - {v};
      }
    }

    /** Overwrites the first slots of an array with as many of the fetched values as it holds; the others keep what
        they held. */
    method FillSlots(values: set<int>, before: seq<int>) returns (slots: seq<int>)
      requires 0 !in values
      ensures |slots| == |before|
      ensures NonZero(slots) == values <==> FitsSlots(values, true, before)
    {
      var rows := Fetch(values);
      slots := before;
      var i := 0;
      while i < |rows| && i < |before|
        invariant 0 <= i <= |rows| && i <= |before| == |slots|
        invariant forall k :: 0 <= k < |slots| ==> slots[k] == if k < i then rows[k] else before[k]
      {
        slots := slots[i := rows[i]];
        i := i + 1;
      }
      FilledSlots(values, rows, before, slots);
    }

    /** Loads the unlocked classes and then the unlocked races; a failing query ends the loading. */
    method LoadUnlocks(a: View) returns (classesLoaded: bool, racesLoaded: bool)
      requires db.Valid() && a.Shape()
      modifies a`classes, a`races, db`failures
      ensures a.Shape() && NoneFailed(classesLoaded && racesLoaded)
      ensures NonZero(a.classes) == ValuesOf(db.committed.classes, a.id) <==>
                FitsSlots(ValuesOf(db.committed.classes, a.id), classesLoaded, old(a.classes))
      ensures NonZero(a.races) == ValuesOf(db.committed.races, a.id) <==>
                FitsSlots(ValuesOf(db.committed.races, a.id), racesLoaded, old(a.races))
      ensures racesLoaded ==> classesLoaded
    {
      racesLoaded := false;
      classesLoaded := db.Attempt();
      if !classesLoaded {
        return;
      }
      a.classes := FillSlots(ValuesOf(db.committed.classes, a.id), a.classes);
      racesLoaded := db.Attempt();
      if !racesLoaded {
        return;
      }
      a.races := FillSlots(ValuesOf(db.committed.races, a.id), a.races);
    }

    /** Loads the account of a given name into a view, which may have held another account before, and marks the
        view clean, although some of the queries may have failed. */
    method LoadAccount(name: string, a: View) returns (found: bool, classesLoaded: bool, racesLoaded: bool)
      requires db.Valid() && !db.open && a.Shape() && a.id < db.nextId
      modifies a, db`committed, db`failures
      ensures db.Valid() && a.Shape() && a.id < db.nextId && FewerPlayers(old(db.committed), db.committed)
      // if no query fails, the account is found if it is there, and everything of it is read
      ensures db.failures >= old(db.failures)
      ensures db.failures == old(db.failures) ==>
                (found <==> NameHeld(old(db.committed).accounts, name)) && (found ==> classesLoaded && racesLoaded)
      ensures db.failures == old(db.failures) && found ==> Listed(a.names, db.committed.players, a.id)
      ensures !found ==> a.id == old(a.id) && a.hash == old(a.hash) && a.initialized == old(a.initialized)
      ensures !found ==> a.names == old(a.names) || a.names == Slots([])
      ensures found ==> a.id in db.committed.accounts && Lower(db.committed.accounts[a.id].name) == Lower(name)
      ensures found ==> OnlyRows(a.names, db.committed.players, a.id)
      ensures found ==> a.name.Some? && forall i :: 0 <= i < COMPONENT_COUNT ==> !a.Pending(i)
      ensures found ==> (Stored(db.committed, a.id, a.Mem()) <==>
                         LoadsFaithfully(db.committed, a.id, classesLoaded, racesLoaded, old(a.classes), old(a.races)))
      ensures found ==> (a.Agrees(db.committed) <==> Stored(db.committed, a.id, a.Mem()))
    {
      found, classesLoaded, racesLoaded := false, false, false;
      var available := db.Attempt();
      if !available {
        return;
      }
      a.name, a.email := None, None;
      ForgetNames(a);
      found := db.Attempt();
      if !found || !NameHeld(db.committed.accounts, name) {
        found := false;
        return;
      }
      var id :| id in db.committed.accounts && Lower(db.committed.accounts[id].name) == Lower(name);
      classesLoaded, racesLoaded := LoadRow(a, id);
    }

    method LoadRow(a: View, id: int) returns (classesLoaded: bool, racesLoaded: bool)
      requires db.Valid() && !db.open && a.Shape() && id in db.committed.accounts
      modifies a, db`committed, db`failures
      ensures db.Valid() && a.Shape() && FewerPlayers(old(db.committed), db.committed)
      ensures db.failures >= old(db.failures)
      ensures db.failures == old(db.failures) ==>
                classesLoaded && racesLoaded && Listed(a.names, db.committed.players, id)
      ensures a.initialized && a.id == id && a.name.Some? && forall i :: 0 <= i < COMPONENT_COUNT ==> !a.Pending(i)
      ensures OnlyRows(a.names, db.committed.players, id)
      ensures Stored(db.committed, id, a.Mem()) <==>
                LoadsFaithfully(db.committed, id, classesLoaded, racesLoaded, old(a.classes), old(a.races))
      ensures a.Agrees(db.committed) <==> Stored(db.committed, id, a.Mem())
    {
      FetchCore(a, id);
      classesLoaded, racesLoaded := LoadRest(a, id);
      FinishLoad(a);
    }

    /** Loads what belongs to a core row that has been copied. */
    method LoadRest(a: View, id: int) returns (classesLoaded: bool, racesLoaded: bool)
      requires db.Valid() && !db.open && a.Shape() && a.id == id && id in db.committed.accounts
      requires CoreLoaded(a, db.committed.accounts[id])
      modifies a`names, a`classes, a`races, db`committed, db`failures
      ensures db.Valid() && a.Shape() && FewerPlayers(old(db.committed), db.committed)
      ensures db.failures >= old(db.failures)
      ensures db.failures == old(db.failures) ==>
                classesLoaded && racesLoaded && Listed(a.names, db.committed.players, id)
      ensures OnlyRows(a.names, db.committed.players, id)
      ensures Stored(db.committed, id, a.Mem()) <==>
                LoadsFaithfully(db.committed, id, classesLoaded, racesLoaded, old(a.classes), old(a.races))
    {
      var charactersLoaded := LoadCharacters(a);
      classesLoaded, racesLoaded := LoadUnlocks(a);
      LoadedIsStored(db.committed, id, a.Mem(),
                     if charactersLoaded then NamesOf(db.committed.players, id) else [], classesLoaded, racesLoaded,
                     old(a.classes), old(a.races));
    }

    /** The view holds the columns of the row, the password cut to the length of its buffer. */
    ghost predicate CoreLoaded(a: View, row: AccountRow)
      reads a
    {
      && a.name == Some(row.name) && a.experience == row.experience && a.email == row.email
      && a.surveyDone == row.surveyDone
      && (a.password == row.password <==> |row.password| <= MAX_PWD_LENGTH)
      && a.password <= row.password && (a.password == row.password || |a.password| == MAX_PWD_LENGTH)
    }

    /** Marks a loaded view clean. */
    method FinishLoad(a: View)
      requires a.Shape() && a.id > 0
      modifies a`hash, a`dirty, a`saved, a`initialized
      ensures a.Shape() && a.initialized && forall i :: 0 <= i < COMPONENT_COUNT ==> !a.Pending(i)
      ensures a.Agrees(db.committed) <==> Stored(db.committed, a.id, a.Mem())
    {
      a.MarkClean();
      CleanAgrees(a, db.committed);
    }

    /** Copies the core row; the password is cut to the length of its buffer. */
    method FetchCore(a: View, id: int)
      requires db.Valid() && id in db.committed.accounts && a.Shape()
      modifies a`id, a`name, a`password, a`experience, a`email, a`surveyDone
      ensures a.Shape() && a.id == id
      ensures CoreLoaded(a, db.committed.accounts[id])
    {
      var row := db.committed.accounts[id];
      a.id, a.name := id, Some(row.name);
      a.password := if |row.password| <= MAX_PWD_LENGTH then row.password else row.password[..MAX_PWD_LENGTH];
      a.experience, a.email, a.surveyDone := row.experience, row.email, row.surveyDone;
    }

    /** Loading an account and saving it at once: the save always returns true, because the load marks everything
        clean, but the account is stored only if the load was faithful. */
    method LoadThenSave(name: string, a: View)
      returns (found: bool, saved: bool, classesLoaded: bool, racesLoaded: bool)
      requires Idle() && a.Shape() && a.id < db.nextId
      modifies a, db, Objects()
      ensures found ==> saved
      ensures db.failures == old(db.failures) ==> (found <==> old(NameHeld(db.committed.accounts, name)))
      ensures found ==> a.id in db.committed.accounts
      ensures found ==> (Stored(db.committed, a.id, a.Mem()) <==>
                         LoadsFaithfully(db.committed, a.id, classesLoaded, racesLoaded, old(a.classes), old(a.races)))
    {
      found, classesLoaded, racesLoaded := LoadAccount(name, a);
      saved := false;
      if found {
        saved := SaveChecked(a);
      }
    }

    // ----- Staged removal of a character -----

    /** Stages the removal of a character in a transaction that stays open. */
    method BeginRemoval(name: string, a: View) returns (ok: bool)
      requires db.Valid() && !db.open
      modifies db`working, db`open, db`failures
      ensures db.Valid() && ok == db.open && NoneFailed(ok)
      ensures ok ==> db.working == db.committed.(players := DeletePlayer(db.committed.players, name, a.id))
    {
      var escaped := db.Attempt();
      if !escaped {
        return false;
      }
      ok := db.StartTransaction();
      if !ok {
        return;
      }
      ok := db.Execute(db.working.(players := DeletePlayer(db.working.players, name, a.id)));
      if !ok {
        db.Rollback();
      }
    }

    /** Commits a staged removal and reloads every connected view of the account. */
    method CommitRemoval(a: View, ghost name: string) returns (ok: bool)
      requires db.Valid() && db.open
      requires db.working == db.committed.(players := DeletePlayer(db.committed.players, name, a.id))
      requires forall v :: v in Objects() ==> v.Shape() && v.id < db.nextId
      modifies db`committed, db`open, db`failures, Objects()
      ensures Idle() && db.nextId == old(db.nextId)
      ensures db.failures >= old(db.failures) && (!ok ==> db.failures > old(db.failures))
      ensures forall v :: v in Objects() && old(v.Agrees(db.committed)) ==> v.Agrees(db.committed)
      // true: no connected view holds the name, whichever of the reload queries failed
      ensures ok ==> forall v :: v in Objects() && v.id == a.id ==> !Holds(v.names, name)
      ensures ok ==> NotLinked(db.committed.players, name, a.id)
      ensures ok ==> forall v :: v in Objects() && v.id == a.id ==> OnlyRows(v.names, old(db.committed).players, a.id)
      ensures FewerPlayers(old(db.committed), db.committed)
      // nothing else is removed, and if no query fails all other names are still listed
      ensures ok && NoDuplicates(old(db.working).players, a.id) ==> db.committed == old(db.working)
      ensures db.failures == old(db.failures) && NoDuplicates(old(db.working).players, a.id) ==>
                forall v :: v in Objects() && v.id == a.id ==> Listed(v.names, db.committed.players, a.id)
      // false: nothing is removed
      ensures !ok ==> db.committed == old(db.committed) && forall v :: v in Objects() ==> unchanged(v)
      ensures forall v :: v in Objects() ==> v.id == old(v.id)
      ensures forall v :: v in Objects() && v.id != a.id ==> unchanged(v)
    {
      ok := db.Commit();
      if !ok {
        db.Rollback();
        return;
      }
      ghost var t1 := db.committed;
      FewerPlayersAgreeAll(Objects(), old(db.committed), t1);
      ReloadViews(a.id);
      FewerPlayersAgreeAll(Objects(), t1, db.committed);
      RowsOnlyHold(Objects(), t1.players, a.id, name);
    }

    /** Reloads the character names of every connected view of one account. */
    method ReloadViews(id: int)
      requires db.Valid() && !db.open
      requires forall v :: v in Objects() ==> v.Shape()
      modifies db`committed, db`failures, Objects()
      ensures db.Valid() && FewerPlayers(old(db.committed), db.committed) && db.failures >= old(db.failures)
      ensures forall v :: v in Objects() ==> v.Shape() && v.id == old(v.id)
      ensures forall v :: v in Objects() ==> v.hash == old(v.hash) && v.initialized == old(v.initialized)
      ensures forall v :: v in Objects() && v.id != id ==> unchanged(v)
      ensures forall v :: v in Objects() && v.id == id ==> OnlyRows(v.names, old(db.committed).players, id)
      ensures NoDuplicates(old(db.committed).players, id) ==> db.committed == old(db.committed)
      ensures db.failures == old(db.failures) && NoDuplicates(old(db.committed).players, id) ==>
                forall v :: v in Objects() && v.id == id ==> Listed(v.names, db.committed.players, id)
    {
      ghost var players, clean := db.committed.players, NoDuplicates(db.committed.players, id);
      for i := 0 to |views|
        invariant db.Valid() && FewerPlayers(old(db.committed), db.committed) && db.failures >= old(db.failures)
        invariant clean ==> db.committed == old(db.committed)
        invariant forall v :: v in Objects() ==> v.Shape() && v.id == old(v.id)
        invariant forall v :: v in Objects() ==> v.hash == old(v.hash) && v.initialized == old(v.initialized)
        invariant forall v :: v in Objects() && v.id != id ==> unchanged(v)
        invariant forall v: View :: v in views[..i] && v.id == id ==>
                    Reloaded(v, players, id, clean && db.failures == old(db.failures))
      {
        var target := views[i];
        if target != null && target.id == id {
          ReloadOne(target, players, id);
        }
      }
    }

    /** The names of the view are those of rows, and if all went well of all rows. */
    ghost predicate Reloaded(v: View, players: seq<PlayerRow>, id: int, smooth: bool)
      reads v
    {
      OnlyRows(v.names, players, id) && (smooth ==> Listed(v.names, players, id))
    }

    method ReloadOne(target: View, ghost players: seq<PlayerRow>, id: int)
      requires db.Valid() && !db.open && target.Shape() && target.id == id
      requires forall p :: p in db.committed.players ==> p in players
      requires NoDuplicates(players, id) ==> db.committed.players == players
      modifies target`names, db`committed, db`failures
      ensures db.Valid() && FewerPlayers(old(db.committed), db.committed) && db.failures >= old(db.failures)
      ensures NoDuplicates(players, id) ==> db.committed == old(db.committed)
      ensures target.Shape()
      ensures Reloaded(target, players, id, NoDuplicates(players, id) && db.failures == old(db.failures))
    {
      var loaded := LoadCharacters(target);
      LoadedNamesAreRows(players, db.committed.players, id);
    }
  }

  /** What it takes for a load to leave a view that agrees with the database. */
  predicate LoadsFaithfully(t: Tables, id: int, classesLoaded: bool, racesLoaded: bool, classes: seq<int>,
                            races: seq<int>)
    requires id in t.accounts
  {
    && |t.accounts[id].password| <= MAX_PWD_LENGTH
    && FitsSlots(ValuesOf(t.classes, id), classesLoaded, classes)
    && FitsSlots(ValuesOf(t.races, id), racesLoaded, races)
  }

  /** An array holds exactly the stored values after a load: if they were fetched, they fit, and nothing else is left
      behind them; if not, the array held them before. */
  predicate FitsSlots(values: set<int>, loaded: bool, before: seq<int>) {
    if loaded then |values| <= |before| && NonZero(before[|values|..]) <= values else NonZero(before) == values
  }

  /** An unfaithful load: one class is unlocked, the query for the classes fails, and the new view has none. */
  lemma UnfaithfulLoad()
    ensures var row, player := AccountRow("Ann", "secret", 0, None, false), PlayerRow("Bo", Some(1));
            var t := Tables(map[1 := row], [player], {}, {(1, 5)});
            var none := seq(MAX_UNLOCKED_CLASSES, i => 0);
            Sound(t, 2) && !LoadsFaithfully(t, 1, false, false, none, none)
  {
    var row, player := AccountRow("Ann", "secret", 0, None, false), PlayerRow("Bo", Some(1));
    var t := Tables(map[1 := row], [player], {}, {(1, 5)});
    var none := seq(MAX_UNLOCKED_CLASSES, i => 0);
    assert (1, 5) in t.classes && 5 in ValuesOf(t.classes, 1);
    assert NonZero(none) == {};
  }

  lemma LoadedIsStored(t: Tables, id: int, m: Memory, rows: seq<string>, classesLoaded: bool, racesLoaded: bool,
                       classes: seq<int>, races: seq<int>)
    requires id in t.accounts && UniqueNames(t.players) && m.names == Slots(rows)
    requires forall n :: n in rows ==> PlayerRow(n, Some(id)) in t.players
    requires m.experience == t.accounts[id].experience && m.email == t.accounts[id].email
    requires m.surveyDone == t.accounts[id].surveyDone
    requires m.password == t.accounts[id].password <==> |t.accounts[id].password| <= MAX_PWD_LENGTH
    requires NonZero(m.classes) == ValuesOf(t.classes, id) <==>
               FitsSlots(ValuesOf(t.classes, id), classesLoaded, classes)
    requires NonZero(m.races) == ValuesOf(t.races, id) <==> FitsSlots(ValuesOf(t.races, id), racesLoaded, races)
    ensures Stored(t, id, m) <==> LoadsFaithfully(t, id, classesLoaded, racesLoaded, classes, races)
  {
    LoadedNamesMatch(t, id, m, rows);
    assert HashOf(m, CHARACTERS).names == Texts(m.names);
  }

  /** Slots of which the first ones hold fetched values and the others what they held before. */
  lemma FilledSlots(values: set<int>, rows: seq<int>, before: seq<int>, slots: seq<int>)
    requires |rows| == |values| && (forall v :: v in rows <==> v in values) && 0 !in values
    requires |slots| == |before|
    requires forall k :: 0 <= k < |slots| ==> slots[k] == if k < |rows| then rows[k] else before[k]
    ensures NonZero(slots) == values <==> FitsSlots(values, true, before)
  {
    FewNonZero(slots);
    if |values| <= |before| {
      var left := before[|values|..];
      assert slots == rows + left;
      forall v
        ensures v in NonZero(slots) <==> v in values || v in NonZero(left)
      {
        assert v in slots <==> v in rows || v in left;
      }
    }
  }

  lemma CleanAgrees(a: View, t: Tables)
    requires a.Shape() && a.initialized && a.id > 0
    requires forall i :: 0 <= i < COMPONENT_COUNT ==> a.hash[i] == HashOf(a.Mem(), i)
    ensures a.Agrees(t) <==> Stored(t, a.id, a.Mem())
  {
    MatchesIsStored(t, a.id, a.Mem());
    if a.Agrees(t) {
      assert forall i :: 0 <= i < COMPONENT_COUNT ==> Matches(t, a.id, i, a.hash[i]);
    }
  }

  predicate EmailStored(t: Tables, id: int, email: Option<string>) {
    id in t.accounts && t.accounts[id].email == email
  }

  /** The case in which a save that returns true keeps the wrong e-mail: the stored row has none, memory has an
      empty one, and so nothing is pending. */
  lemma EmptyEmailIsMissed(t: Tables, id: int, m: Memory)
    requires Stored(t, id, m) && t.accounts[id].email == None && m.email == None
    ensures var m' := m.(email := Some(""));
            (forall i: nat :: HashOf(m', i) == HashOf(m, i)) && Stored(t, id, m') && !EmailStored(t, id, m'.email)
  {
  }

  lemma {:induction false} LinkedNamesAreSlots(rows: seq<string>, texts: seq<string>, key: string)
    requires forall i :: 0 <= i < |texts| ==> texts[i] == (if i < |rows| then rows[i] else "")
    requires key in LinkedNames(texts)
    ensures exists n :: n in rows && Lower(n) == key
  {
    if Lower(texts[0]) == key {
      assert rows[0] in rows;
    } else {
      assert forall i :: 0 <= i < |texts| - 1 ==> texts[1..][i] == texts[i + 1];
      LinkedNamesAreSlots(rows[1..], texts[1..], key);
    }
  }

  /** Names loaded from the account's own rows match the table. */
  lemma LoadedNamesMatch(t: Tables, id: int, m: Memory, rows: seq<string>)
    requires UniqueNames(t.players) && m.names == Slots(rows)
    requires forall n :: n in rows ==> PlayerRow(n, Some(id)) in t.players
    ensures Matches(t, id, CHARACTERS, HashOf(m, CHARACTERS))
  {
    var h := HashOf(m, CHARACTERS);
    forall p | p in t.players && Lower(p.name) in LinkedNames(h.names)
      ensures p.accountId == Some(id)
    {
      LinkedNamesAreSlots(rows, h.names, Lower(p.name));
      var n :| n in rows && Lower(n) == Lower(p.name);
      assert PlayerRow(n, Some(id)) in t.players;
    }
  }

  lemma {:induction false} FewNonZero(values: seq<int>)
    ensures |NonZero(values)| <= |values|
  {
    if values == [] {
      assert NonZero(values) == {};
    } else {
      FewNonZero(values[1..]);
      assert NonZero(values) <= NonZero(values[1..]) + {values[0]};
      assert |NonZero(values[1..]) + {values[0]}| <= |NonZero(values[1..])| + 1;
      SubsetIsSmaller(NonZero(values), NonZero(values[1..]) + {values[0]});
    }
  }

  lemma SubsetIsSmaller(a: set<int>, b: set<int>)
    requires a <= b
    ensures |a| <= |b|
  {
    if a != {} {
      var x := ElementOf(a);
      SubsetIsSmaller(a - {x}, b - {x});
    }
  }

  lemma OthersAgree(views: set<View>, t: Tables, id: int, m: Memory, f: Flags)
    requires UniqueAccounts(t.accounts) && forall v :: v in views ==> v.Shape()
    ensures forall v :: v in views && v.id != id && v.Agrees(t) && Untouched(v, id, m, f, t) ==>
              v.Agrees(Written(t, id, m, f))
  {
    forall v | v in views && v.id != id && v.Agrees(t) && Untouched(v, id, m, f, t)
      ensures v.Agrees(Written(t, id, m, f))
    {
      StillAgrees(v, t, id, m, f);
    }
  }

  /** Views that hold the same account agree alike. */
  lemma SameAgree(views: set<View>, a: View, t: Tables)
    requires a.Shape() && forall v :: v in views ==> v.Shape()
    requires forall v :: v in views && v != a && v.id == a.id ==> SameAccount(v, a)
    ensures forall v :: v in views && v.id == a.id ==> (v.Agrees(t) <==> a.Agrees(t))
  {
  }

  /** One of the slots holds the name, in whatever case. */
  predicate Holds(names: seq<Option<string>>, name: string) {
    exists i :: 0 <= i < |names| && names[i].Some? && Lower(names[i].value) == Lower(name)
  }

  /** The names of the rows of an account, in the order the table yields them. */
  function NamesOf(players: seq<PlayerRow>, id: int): (r: seq<string>)
    ensures forall n :: n in r <==> PlayerRow(n, Some(id)) in players
  {
    if players == [] then []
    else
      (if players[0].accountId == Some(id) then [players[0].name] else []) + NamesOf(players[1..], id)
  }

  function Slots(rows: seq<string>): (r: seq<Option<string>>)
    ensures |r| == MAX_CHARS_PER_ACCOUNT
  {
    seq(MAX_CHARS_PER_ACCOUNT, i requires 0 <= i => if i < |rows| then Some(rows[i]) else None)
  }

  /** The lower-case names of the rows of an account. */
  function KeysOf(players: seq<PlayerRow>, id: int): seq<string> {
    var names := NamesOf(players, id);
    seq(|names|, i requires 0 <= i < |names| => Lower(names[i]))
  }

  predicate HasDuplicates(keys: seq<string>) {
    exists i, j :: 0 <= i < j < |keys| && keys[i] == keys[j]
  }

  /** The number of rows of one account whose name is the key, in whatever case. */
  function RowCount(players: seq<PlayerRow>, key: string, id: Option<int>): nat {
    if players == [] then 0
    else
      (if Lower(players[0].name) == key && players[0].accountId == id then 1 else 0) + RowCount(players[1..], key, id)
  }

  /** DELETE ... LIMIT: removes the first `limit` rows of one name, in whatever case, of one account. */
  function DeleteSome(players: seq<PlayerRow>, key: string, id: int, limit: nat): (r: seq<PlayerRow>)
    ensures forall p :: p in r ==> p in players
  {
    if players == [] || limit == 0 then players
    else if Lower(players[0].name) == key && players[0].accountId == Some(id) then
      DeleteSome(players[1..], key, id, limit - 1)
    else [players[0]] + DeleteSome(players[1..], key, id, limit)
  }

  lemma {:induction false} DeleteSomeCounts(players: seq<PlayerRow>, key: string, id: int, limit: nat)
    requires limit <= RowCount(players, key, Some(id))
    ensures forall k, i :: RowCount(DeleteSome(players, key, id, limit), k, i) ==
                             RowCount(players, k, i) - if k == key && i == Some(id) then limit else 0
  {
    if players != [] && limit > 0 {
      if Lower(players[0].name) == key && players[0].accountId == Some(id) {
        DeleteSomeCounts(players[1..], key, id, limit - 1);
      } else {
        DeleteSomeCounts(players[1..], key, id, limit);
        var rest := DeleteSome(players[1..], key, id, limit);
        assert ([players[0]] + rest)[1..] == rest;
      }
    }
  }

  /** Each name of each account has as many rows as before, or was one of several of this account and has one left. */
  ghost predicate OneOfEachKept(before: seq<PlayerRow>, after: seq<PlayerRow>, id: int) {
    forall key, i :: RowCount(after, key, i) ==
                       if i == Some(id) && RowCount(before, key, i) > 1 && RowCount(after, key, i) == 1 then 1
                       else RowCount(before, key, i)
  }

  /** No name, in whatever case, has two rows of the account. */
  ghost predicate NoDuplicates(players: seq<PlayerRow>, id: int) {
    forall key :: RowCount(players, key, Some(id)) <= 1
  }

  /** The state of the cleanup when the first n names have been dealt with; `smooth` says that no query failed. */
  ghost predicate Cleaned(before: seq<PlayerRow>, after: seq<PlayerRow>, id: int, keys: seq<string>, n: nat,
                          smooth: bool)
  {
    && n <= |keys|
    && OneOfEachKept(before, after, id)
    && (forall j :: n <= j < |keys| && keys[j] !in keys[..n] ==>
          RowCount(after, keys[j], Some(id)) == RowCount(before, keys[j], Some(id)))
    && (smooth ==> forall j :: 0 <= j < n ==> RowCount(after, keys[j], Some(id)) <= 1)
  }

  lemma KeysStep(players: seq<PlayerRow>, id: int)
    requires players != []
    ensures KeysOf(players, id) ==
              (if players[0].accountId == Some(id) then [Lower(players[0].name)] else []) + KeysOf(players[1..], id)
  {
  }

  lemma {:induction false} CountedKeys(players: seq<PlayerRow>, id: int, key: string)
    ensures multiset(KeysOf(players, id))[key] == RowCount(players, key, Some(id))
  {
    if players != [] {
      CountedKeys(players[1..], id, key);
      KeysStep(players, id);
    }
  }

  lemma AllCleaned(before: seq<PlayerRow>, after: seq<PlayerRow>, id: int)
    requires var keys := KeysOf(before, id); Cleaned(before, after, id, keys, |keys|, true)
    ensures NoDuplicates(after, id)
  {
    var keys := KeysOf(before, id);
    forall key
      ensures RowCount(after, key, Some(id)) <= 1
    {
      CountedKeys(before, id, key);
      if key in keys {
        var j :| 0 <= j < |keys| && keys[j] == key;
      } else {
        assert RowCount(before, key, Some(id)) == 0;
      }
    }
  }

  lemma {:induction false} RepeatedKey(keys: seq<string>, key: string)
    requires multiset(keys)[key] > 1
    ensures HasDuplicates(keys)
  {
    var rest := keys[1..];
    assert keys == [keys[0]] + rest;
    if keys[0] == key {
      assert key in multiset(rest);
      var j :| 0 <= j < |rest| && rest[j] == key;
      assert keys[0] == keys[j + 1];
    } else {
      RepeatedKey(rest, key);
      var i, j :| 0 <= i < j < |rest| && rest[i] == rest[j];
      assert keys[i + 1] == keys[j + 1];
    }
  }

  lemma CountOfPair(keys: seq<string>, i: nat, j: nat)
    requires i < j < |keys| && keys[i] == keys[j]
    ensures multiset(keys)[keys[i]] > 1
  {
    assert keys == keys[..j] + keys[j..];
    assert keys[..j][i] in multiset(keys[..j]) && keys[j..][0] in multiset(keys[j..]);
  }

  /** The query that looks for duplicates finds them. */
  lemma DuplicateKeys(players: seq<PlayerRow>, id: int)
    ensures HasDuplicates(KeysOf(players, id)) <==> !NoDuplicates(players, id)
  {
    var keys := KeysOf(players, id);
    if HasDuplicates(keys) {
      var i, j :| 0 <= i < j < |keys| && keys[i] == keys[j];
      CountOfPair(keys, i, j);
      CountedKeys(players, id, keys[i]);
    }
    if !NoDuplicates(players, id) {
      var key :| RowCount(players, key, Some(id)) > 1;
      CountedKeys(players, id, key);
      RepeatedKey(keys, key);
    }
  }

  /** The slots hold, in the order of the table, the names of the rows at the given places, which are all the rows of
      the account, and behind them nothing. */
  ghost predicate ListsRows(names: seq<Option<string>>, at: seq<nat>, players: seq<PlayerRow>, id: int) {
    && RowPlaces(at, players, id)
    && forall k :: 0 <= k < |names| ==> names[k] == if k < |at| then Some(players[at[k]].name) else None
  }

  ghost predicate Listed(names: seq<Option<string>>, players: seq<PlayerRow>, id: int) {
    exists at :: ListsRows(names, at, players, id)
  }

  /** The places are those of all the rows of the account, in order. */
  ghost predicate RowPlaces(at: seq<nat>, players: seq<PlayerRow>, id: int) {
    && (forall j, k :: 0 <= j < k < |at| ==> at[j] < at[k])
    && (forall i :: 0 <= i < |players| ==> (i in at <==> players[i].accountId == Some(id)))
    && (forall k :: 0 <= k < |at| ==> at[k] < |players|)
  }

  ghost predicate NamesAt(at: seq<nat>, players: seq<PlayerRow>, names: seq<string>) {
    |at| == |names| && forall k :: 0 <= k < |at| ==> at[k] < |players| && players[at[k]].name == names[k]
  }

  ghost function Shifted(at: seq<nat>): (r: seq<nat>)
    ensures |r| == |at| && forall k :: 0 <= k < |at| ==> r[k] == at[k] + 1
  {
    seq(|at|, k requires 0 <= k < |at| => at[k] + 1)
  }

  lemma ShiftedPlaces(at: seq<nat>, i: nat)
    ensures i in Shifted(at) <==> i > 0 && i - 1 in at
  {
    if i > 0 && i - 1 in at {
      var k :| 0 <= k < |at| && at[k] == i - 1;
      assert Shifted(at)[k] == i;
    }
  }

  lemma RowPlacesStep(at: seq<nat>, players: seq<PlayerRow>, id: int)
    requires players != [] && RowPlaces(at, players[1..], id)
    ensures RowPlaces((if players[0].accountId == Some(id) then [0] else []) + Shifted(at), players, id)
  {
    var all := (if players[0].accountId == Some(id) then [0] else []) + Shifted(at);
    forall i | 0 <= i < |players|
      ensures i in all <==> players[i].accountId == Some(id)
    {
      ShiftedPlaces(at, i);
      assert i > 0 ==> players[1..][i - 1] == players[i];
    }
  }

  lemma NamesAtStep(at: seq<nat>, players: seq<PlayerRow>, names: seq<string>, own: bool)
    requires players != [] && NamesAt(at, players[1..], names)
    ensures NamesAt((if own then [0] else []) + Shifted(at), players, (if own then [players[0].name] else []) + names)
  {
    forall k | 0 <= k < |at|
      ensures players[Shifted(at)[k]].name == names[k]
    {
      assert players[1..][at[k]] == players[at[k] + 1];
    }
  }

  lemma {:induction false} RowsAt(players: seq<PlayerRow>, id: int) returns (at: seq<nat>)
    ensures RowPlaces(at, players, id) && NamesAt(at, players, NamesOf(players, id))
  {
    at := [];
    if players != [] {
      var rest := RowsAt(players[1..], id);
      RowPlacesStep(rest, players, id);
      NamesAtStep(rest, players, NamesOf(players[1..], id), players[0].accountId == Some(id));
      at := (if players[0].accountId == Some(id) then [0] else []) + Shifted(rest);
    }
  }

  lemma AllRowsListed(players: seq<PlayerRow>, id: int)
    ensures Listed(Slots(NamesOf(players, id)), players, id)
  {
    var at := RowsAt(players, id);
    assert ListsRows(Slots(NamesOf(players, id)), at, players, id);
  }

  /** The tables differ at most in player rows that are gone. */
  ghost predicate FewerPlayers(t: Tables, t': Tables) {
    && t'.accounts == t.accounts && t'.races == t.races && t'.classes == t.classes
    && forall p :: p in t'.players ==> p in t.players
  }

  lemma FewerPlayersAgree(v: View, t: Tables, t': Tables)
    requires v.Shape() && v.Agrees(t) && FewerPlayers(t, t')
    ensures v.Agrees(t')
  {
    if v.initialized {
      forall i | 0 <= i < COMPONENT_COUNT
        ensures Matches(t', v.id, i, v.hash[i])
      {
        assert Matches(t, v.id, i, v.hash[i]);
      }
    }
  }

  lemma FewerPlayersAgreeAll(views: set<View>, t: Tables, t': Tables)
    requires FewerPlayers(t, t') && forall v :: v in views ==> v.Shape()
    ensures forall v :: v in views && v.Agrees(t) ==> v.Agrees(t')
  {
    forall v | v in views && v.Agrees(t)
      ensures v.Agrees(t')
    {
      FewerPlayersAgree(v, t, t');
    }
  }

  /** No row of this name belongs to the account. */
  ghost predicate NotLinked(players: seq<PlayerRow>, name: string, id: int) {
    forall p :: p in players ==> !(Lower(p.name) == Lower(name) && p.accountId == Some(id))
  }

  /** Every name is that of a row of the account. */
  ghost predicate OnlyRows(names: seq<Option<string>>, players: seq<PlayerRow>, id: int) {
    forall i :: 0 <= i < |names| && names[i].Some? ==> PlayerRow(names[i].value, Some(id)) in players
  }

  /** Names loaded from the table, or not loaded at all, are names of rows. */
  lemma LoadedNamesAreRows(before: seq<PlayerRow>, players: seq<PlayerRow>, id: int)
    requires forall p :: p in players ==> p in before
    ensures OnlyRows(Slots(NamesOf(players, id)), before, id) && OnlyRows(Slots([]), before, id)
  {
    var rows := NamesOf(players, id);
    forall i | 0 <= i < |Slots(rows)| && Slots(rows)[i].Some?
      ensures PlayerRow(Slots(rows)[i].value, Some(id)) in before
    {
      assert rows[i] in rows;
    }
  }

  /** Names of rows do not include a name the account has no row for. */
  lemma RowsDoNotHold(names: seq<Option<string>>, players: seq<PlayerRow>, id: int, name: string)
    requires OnlyRows(names, players, id) && NotLinked(players, name, id)
    ensures !Holds(names, name)
  {
  }

  lemma RowsOnlyHold(views: set<View>, players: seq<PlayerRow>, id: int, name: string)
    requires NotLinked(players, name, id)
    ensures forall v :: v in views && OnlyRows(v.names, players, id) ==> !Holds(v.names, name)
  {
  }

  /** A view that does not hold a name never links it: the rows of that name keep their account. */
  lemma {:induction false} UnheldIsNotQueried(names: seq<Option<string>>, name: string)
    requires !Holds(names, name)
    ensures Lower(name) !in QueryNames(names)
  {
    if names != [] && names[0].Some? {
      assert !Holds(names[1..], name) by {
        assert forall i :: 0 <= i < |names| - 1 ==> names[1..][i] == names[i + 1];
      }
      assert Lower(names[0].value) != Lower(name);
      UnheldIsNotQueried(names[1..], name);
    }
  }

  /** No save of a view that does not hold the name changes the account of a row of that name. */
  lemma SaveDoesNotRelink(players: seq<PlayerRow>, names: seq<Option<string>>, id: int, name: string)
    requires !Holds(names, name)
    ensures var players' := LinkAll(players, QueryNames(names), id);
            forall i :: 0 <= i < |players| && Lower(players[i].name) == Lower(name) ==> players'[i] == players[i]
  {
    UnheldIsNotQueried(names, name);
  }

  lemma SaveKeepsNotLinked(players: seq<PlayerRow>, names: seq<Option<string>>, id: int, name: string)
    requires NotLinked(players, name, id) && !Holds(names, name)
    ensures NotLinked(LinkAll(players, QueryNames(names), id), name, id)
  {
    SaveDoesNotRelink(players, names, id, name);
    var players' := LinkAll(players, QueryNames(names), id);
    forall p | p in players'
      ensures !(Lower(p.name) == Lower(name) && p.accountId == Some(id))
    {
      var i :| 0 <= i < |players'| && players'[i] == p;
      assert players[i] in players;
    }
  }

  lemma StillAgrees(v: View, t: Tables, id: int, m: Memory, f: Flags)
    requires UniqueAccounts(t.accounts) && v.Shape()
    requires v.Agrees(t) && v.id != id && Untouched(v, id, m, f, t)
    ensures v.Agrees(Written(t, id, m, f))
  {
    if v.initialized {
      forall i | 0 <= i < COMPONENT_COUNT
        ensures Matches(Written(t, id, m, f), v.id, i, v.hash[i])
      {
        assert Matches(t, v.id, i, v.hash[i]);
        WrittenKeepsOthers(t, id, m, f, v.id, i, v.hash[i]);
      }
    }
  }

  lemma LinkKeepsKeys(players: seq<PlayerRow>, names: set<string>, id: int)
    requires UniqueNames(players) && id != 0 && forall p :: p in players ==> p.accountId != Some(0)
    ensures UniqueNames(LinkAll(players, names, id))
    ensures forall p :: p in LinkAll(players, names, id) ==> p.accountId != Some(0)
  {
    var linked := LinkAll(players, names, id);
    forall p, q | p in linked && q in linked && Lower(p.name) == Lower(q.name)
      ensures p == q
    {
      var i :| 0 <= i < |linked| && linked[i] == p;
      var j :| 0 <= j < |linked| && linked[j] == q;
      assert players[i] in players && players[j] in players;
    }
    forall p | p in linked
      ensures p.accountId != Some(0)
    {
      var i :| 0 <= i < |linked| && linked[i] == p;
      assert players[i] in players;
    }
  }

  /** The first save of a new account gets a fresh id exactly if nobody has its name.  Then it will store the account,
      and every view that agrees, and lists none of its characters, still does. */
  lemma FirstSaveIsFresh(a: View, v: View, t: Tables, nextId: int)
    requires a.Shape() && v.Shape() && Sound(t, nextId) && a.id == 0 && v.id < nextId
    requires v.Agrees(t) && NamesApart(v, QueryNames(a.names))
    ensures a.SavedId(t, nextId) == nextId <==> !NameHeld(t.accounts, a.name.GetOr(""))
    ensures !NameHeld(t.accounts, a.name.GetOr("")) ==> a.WillStore(t, nextId) && Keeps(v, a, t, nextId)
  {
    assert forall i :: 0 <= i < COMPONENT_COUNT ==> a.Pending(i);
  }

  /** A view that agrees with the database will be stored by a save exactly if it is new or the row a save of it
      writes is its own; once it has been saved or loaded it always is. */
  lemma AgreementStores(a: View, t: Tables, nextId: int)
    requires a.Shape() && Sound(t, nextId) && a.Agrees(t)
    ensures a.WillStore(t, nextId) <==> a.id == 0 || OwnRow(t.accounts, a.id, a.name.GetOr(""))
    ensures a.initialized ==> a.WillStore(t, nextId)
  {
    var f := a.PendingFlags();
    assert !a.initialized ==> f.core && f.characters && f.races && f.classes;
    assert a.initialized ==> Matches(t, a.id, CORE, a.hash[CORE]);
    assert WillMatch(t, a.SavedId(t, nextId), a.Mem(), f, CORE) <==>
        !f.core || a.id == 0 || OwnRow(t.accounts, a.id, a.name.GetOr(""));
  }

  predicate HasRow(players: seq<PlayerRow>, name: string) {
    exists p :: p in players && Lower(p.name) == Lower(name)
  }

  predicate IsLinked(players: seq<PlayerRow>, name: string, id: int) {
    exists p :: p in players && Lower(p.name) == Lower(name) && p.accountId == Some(id)
  }

  /** The link query makes no rows: a name it mentions is linked afterwards exactly if some row has it. */
  lemma LinkedIfThere(players: seq<PlayerRow>, names: seq<Option<string>>, id: int, name: string)
    requires Lower(name) in QueryNames(names)
    ensures IsLinked(LinkAll(players, QueryNames(names), id), name, id) <==> HasRow(players, name)
  {
    var linked := LinkAll(players, QueryNames(names), id);
    if HasRow(players, name) {
      var p :| p in players && Lower(p.name) == Lower(name);
      var i :| 0 <= i < |players| && players[i] == p;
      assert linked[i] in linked;
    }
    if IsLinked(linked, name, id) {
      var p :| p in linked && Lower(p.name) == Lower(name) && p.accountId == Some(id);
      var i :| 0 <= i < |linked| && linked[i] == p;
      assert players[i] in players;
    }
  }

  lemma NothingToSave(a: View, t: Tables, nextId: int)
    requires UniqueAccounts(t.accounts) && a.Shape() && a.PendingFlags() == Flags(false, false, false, false)
    ensures a.SavedId(t, nextId) == a.id && Written(t, a.id, a.Mem(), a.PendingFlags()) == t
    ensures Stored(t, a.id, a.Mem()) <==> a.WillStore(t, nextId)
  {
    assert !a.Pending(CORE);
    SaveStoresExactly(t, a.id, a.Mem(), a.PendingFlags());
  }

  lemma LinkNothing(players: seq<PlayerRow>, id: int)
    ensures LinkAll(players, {}, id) == players
  {
  }
}
