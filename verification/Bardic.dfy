/** Bardic performances (src/bardic_performance.c): two slots for each performer, the perform command, the rule
    that only one performer plays in a room, and the pulse that goes over all characters. */
module Bardic {

  const PERFORMANCE_NONE := -1
  const MAX_PERFORMANCES := 13
  const NOWHERE := -1

  // ----- The performance table -----

  datatype Skill =
    | Healing | Protection | FocusedMind | Heroism | Rejuvenation | Flight | Revelation | Fear
    | Forgetfulness | Rooting | Dragons | Magi | Deafening | NotAPerformance

  datatype Kind = Act | Comedy | Dance | Keyboard | Oratory | Percussion | Strings | Wind | Sing | Undefined

  /** Skill and kind of the entries of performance_info. */
  const PERFORMANCE_INFO: seq<(Skill, Kind)> := [
    (Healing, Sing), (Protection, Dance), (FocusedMind, Sing), (Heroism, Sing), (Rejuvenation, Oratory),
    (Flight, Sing), (Revelation, Sing), (Fear, Sing), (Forgetfulness, Act), (Rooting, Sing), (Dragons, Sing),
    (Magi, Sing), (Deafening, Sing)]

  /** The number is in the table, and the skill found there is a performance. */
  predicate IsValidPerformance(n: int) {
    0 <= n < MAX_PERFORMANCES && n < |PERFORMANCE_INFO| && PERFORMANCE_INFO[n].0 != NotAPerformance
  }

  lemma EveryEntryIsValid(n: int)
    ensures IsValidPerformance(n) <==> 0 <= n < MAX_PERFORMANCES
  {
    assert |PERFORMANCE_INFO| == MAX_PERFORMANCES;
  }

  predicate NeedsSound(n: int) {
    0 <= n < |PERFORMANCE_INFO| && PERFORMANCE_INFO[n].1 in {Keyboard, Oratory, Percussion, Strings, Wind, Sing}
  }

  // ----- The two slots -----

  datatype Slot = Primary | Secondary

  /** The performance fields of one character. */
  datatype Song = Song(active: bool, primary: int, secondary: int, crescendo: (int, int, int)) {

    /** The flag is set exactly when the primary slot holds a valid performance, and the secondary slot is used
        only beside a different one. */
    predicate Normal() {
      && (active <==> IsValidPerformance(primary))
      && (!active ==> primary == PERFORMANCE_NONE && crescendo == (0, 0, 0))
      && (secondary != PERFORMANCE_NONE ==> active && IsValidPerformance(secondary) && secondary != primary)
    }

    /** What the character is performing, the lead first. */
    function Playing(): seq<int> {
      if !active then []
      else if secondary == PERFORMANCE_NONE then [primary]
      else [primary, secondary]
    }

    /** The performances that are left when the fields are put in order. */
    function Sound(maySecond: bool): seq<int> {
      var first := if IsValidPerformance(primary) then [primary] else [];
      var second := if IsValidPerformance(secondary) && secondary != primary then [secondary] else [];
      if first == [] then second
      else if maySecond then first + second
      else first
    }

    /** How many slots a pulse finds in use. */
    function Slots(maySecond: bool): nat {
      if active then |Sound(maySecond)| else 0
    }
  }

  const SILENT := Song(false, PERFORMANCE_NONE, PERFORMANCE_NONE, (0, 0, 0))

  /** The song after its primary performance, or its secondary one, has ended. */
  function Ended(s: Song, slot: Slot): Song {
    match slot
    case Primary =>
      if s.primary == PERFORMANCE_NONE then s else Settled(s.(primary := s.secondary, secondary := PERFORMANCE_NONE))
    case Secondary =>
      if s.secondary == PERFORMANCE_NONE then s else Settled(s.(secondary := PERFORMANCE_NONE))
  }

  function Settled(s: Song): Song {
    if s.primary != PERFORMANCE_NONE then s.(active := true) else s.(active := false, crescendo := (0, 0, 0))
  }

  function Normalized(s: Song, maySecond: bool): Song {
    var t :=
      if IsValidPerformance(s.primary) then s
      else if IsValidPerformance(s.secondary) then s.(primary := s.secondary, secondary := PERFORMANCE_NONE)
      else s.(primary := PERFORMANCE_NONE, secondary := PERFORMANCE_NONE);
    var u :=
      if t.secondary == t.primary || !IsValidPerformance(t.secondary) then t.(secondary := PERFORMANCE_NONE) else t;
    var w := if u.secondary != PERFORMANCE_NONE && !maySecond then u.(secondary := PERFORMANCE_NONE) else u;
    Settled(w)
  }

  /** Putting the fields in order keeps every valid performance once, in order, and only the lead when the
      character may not have a second one. */
  lemma NormalizedKeepsSound(s: Song, maySecond: bool)
    ensures Normalized(s, maySecond).Normal()
    ensures Normalized(s, maySecond).Playing() == s.Sound(maySecond)
    ensures s.Normal() && (maySecond || s.secondary == PERFORMANCE_NONE) ==> Normalized(s, maySecond) == s
  {
  }

  /** Ending one performance removes it and leaves the other; the secondary one becomes the lead. */
  lemma EndedRemoves(s: Song, slot: Slot)
    requires s.Normal()
    ensures Ended(s, slot).Normal()
    ensures Ended(s, slot).Playing() ==
              if slot == Primary then s.Playing()[if s.active then 1 else 0..]
              else if |s.Playing()| == 2 then s.Playing()[..1]
              else s.Playing()
  {
  }

  /** What a pulse makes of a song whose fields are in order: it goes on, or one performance ends, or all end.  In a
      conflict the lead ends, and the second performance, which takes its place, is not played in that pulse; only an
      effect can then end it too. */
  predicate AfterVerses(s: Song, s': Song, gives: bool, quiet: bool) {
    || s' == Ended(s, Primary)
    || (!quiet && s' == SILENT)
    || (!gives && (s' == s || s' == Ended(s, Secondary)))
  }

  /** The verses take slots away, and in a conflict exactly the lead. */
  lemma VersesTakeSlots(s: Song, s': Song, gives: bool, quiet: bool, maySecond: bool)
    requires s.active && AfterVerses(Normalized(s, maySecond), s', gives, quiet)
    ensures s'.Normal() && s'.Slots(maySecond) <= s.Slots(maySecond)
    ensures gives && s'.active ==> s'.Slots(maySecond) < s.Slots(maySecond)
  {
    NormalizedKeepsSound(s, maySecond);
    var n := Normalized(s, maySecond);
    assert n.Slots(maySecond) <= s.Slots(maySecond);
    EndedRemoves(n, Primary);
    EndedRemoves(n, Secondary);
  }

  /** The song without one of its performances. */
  function Dropped(s: Song, n: int): Song {
    if s.primary == n then Ended(s, Primary) else if s.secondary == n then Ended(s, Secondary) else s
  }

  // ----- Characters -----

  /** What bears on performing but is not changed by it: where the character is, whether a player is connected,
      perks and feats, and the character's condition. */
  datatype Circumstances =
    Circumstances(room: int, linked: bool, hasMotifs: bool, knowsMusic: bool, silenced: bool, hit: int, upright: bool)

  class Performer {
    const isNpc: bool
    var at: Circumstances
    var active: bool
    var primary: int
    var secondary: int
    var crescendo: (int, int, int)

    constructor (isNpc: bool, at: Circumstances)
      ensures Sing() == SILENT && this.isNpc == isNpc && this.at == at
    {
      this.isNpc, this.at := isNpc, at;
      active, primary, secondary, crescendo := false, PERFORMANCE_NONE, PERFORMANCE_NONE, (0, 0, 0);
    }

    function Sing(): Song
      reads this
    {
      Song(active, primary, secondary, crescendo)
    }

    predicate MaySecond()
      reads this
    {
      isNpc || at.hasMotifs
    }

    /** A player whose connection is gone. */
    predicate Linkless()
      reads this
    {
      !isNpc && !at.linked
    }

    method Stop()
      modifies `active, `primary, `secondary, `crescendo
      ensures Sing() == SILENT
    {
      active := false;
      primary := PERFORMANCE_NONE;
      secondary := PERFORMANCE_NONE;
      crescendo := (0, 0, 0);
    }

    method StopSlot(slot: Slot)
      modifies `active, `primary, `secondary, `crescendo
      ensures Sing() == Ended(old(Sing()), slot)
    {
      if slot == Primary {
        if primary == PERFORMANCE_NONE {
          return;
        }
        primary := secondary;
        secondary := PERFORMANCE_NONE;
      } else {
        if secondary == PERFORMANCE_NONE {
          return;
        }
        secondary := PERFORMANCE_NONE;
      }
      active := primary != PERFORMANCE_NONE;
      if !active {
        crescendo := (0, 0, 0);
      }
    }

    method Begin(n: int, slot: Slot)
      requires slot == Secondary ==> active
      modifies `active, `primary, `secondary, `crescendo
      ensures Sing() == Begun(old(Sing()), n, slot)
    {
      if slot == Secondary {
        secondary := n;
      } else {
        primary := n;
        if !active {
          secondary := PERFORMANCE_NONE;
        }
      }
      active := true;
      crescendo := (0, 0, 0);
    }

    /** Time goes by: what bears on performing may change, a spell may change the crescendo, and the character may
        stop. */
    method Pass(happens: Circumstances, stops: bool, newCrescendo: (int, int, int))
      modifies this
      ensures at.room == old(at.room) && MaySecond() == old(MaySecond())
      ensures LessThan(old(Sing()), Sing())
    {
      at := happens.(room := at.room, hasMotifs := at.hasMotifs);
      if stops {
        Stop();
      } else if active {
        crescendo := newCrescendo;
      }
    }

    method Normalize()
      modifies `active, `primary, `secondary, `crescendo
      ensures Sing() == Normalized(old(Sing()), MaySecond())
    {
      if !IsValidPerformance(primary) {
        if IsValidPerformance(secondary) {
          primary := secondary;
        } else {
          primary := PERFORMANCE_NONE;
        }
        secondary := PERFORMANCE_NONE;
      }
      if secondary == primary || !IsValidPerformance(secondary) {
        secondary := PERFORMANCE_NONE;
      }
      if !isNpc && secondary != PERFORMANCE_NONE && !at.hasMotifs {
        secondary := PERFORMANCE_NONE;
      }
      active := primary != PERFORMANCE_NONE;
      if !active {
        crescendo := (0, 0, 0);
      }
    }
  }

  /** What time may make of a song: it stops, or goes on, perhaps with another crescendo. */
  predicate LessThan(s: Song, s': Song) {
    s' == SILENT || s' == s || (s.active && s' == s.(crescendo := s'.crescendo))
  }

  // ----- The perform command -----

  /** What a typed performance name stands for. */
  datatype Resolution = Ambiguous | NoMatch | Found(n: int)

  datatype Way = Plainly | Add | Replace

  /** The argument of the perform command, taken apart. */
  datatype Request =
    | Nothing(blanks: bool)
    | List
    | StopAll
    | StopOne(name: Resolution)
    | NameMissing
    | Perform(way: Way, name: Resolution)

  /** Who can perform what, as far as other people are not concerned: somebody who knows music, or any monster, in a
      room, not badly hurt, upright, and not silenced, or with a performance that nobody has to hear: the dance and
      the act. */
  predicate Fit(isNpc: bool, at: Circumstances, soundproof: set<int>, n: int) {
    && at.room != NOWHERE && (isNpc || at.knowsMusic) && at.hit >= 0 && at.upright
    && (0 <= n < MAX_PERFORMANCES)
    && ((!at.silenced && at.room !in soundproof) || n == DANCE_OF_PROTECTION || n == ACT_OF_FORGETFULNESS)
  }

  const DANCE_OF_PROTECTION := 1
  const ACT_OF_FORGETFULNESS := 8

  /** What Fit allows of the performances in the table. */
  function FitFor(isNpc: bool, at: Circumstances, soundproof: set<int>): set<int> {
    set n | 0 <= n < MAX_PERFORMANCES && Fit(isNpc, at, soundproof, n)
  }

  /** What a quiet pulse makes of a song in order: in a conflict, or if the lead cannot be played, exactly the lead
      ends, and what takes its place is not played in that pulse; else the second performance ends if that cannot be
      played. */
  function Quiet(s: Song, contested: bool, playable: set<int>): Song {
    if contested || s.primary !in playable then Ended(s, Primary)
    else if s.secondary != PERFORMANCE_NONE && s.secondary !in playable then Ended(s, Secondary)
    else s
  }

  /** Which slot a new performance takes, if it may be started at all. */
  datatype Transition = Refused | Into(slot: Slot)

  function TransitionOf(s: Song, way: Way, isNpc: bool, hasMotifs: bool): Transition {
    if s.active then
      if way == Add || (way != Replace && !isNpc && hasMotifs && s.secondary == PERFORMANCE_NONE) then
        if isNpc || !hasMotifs || s.secondary != PERFORMANCE_NONE then Refused else Into(Secondary)
      else Into(Primary)
    else if way == Add then Refused
    else Into(Primary)
  }

  /** Which slot that is: one is refused that is to be added but cannot be, and a second one is begun by a player with
      the perk whose second slot is free, unless the lead is to be replaced. */
  lemma TransitionsAre(s: Song, way: Way, isNpc: bool, hasMotifs: bool)
    ensures var second := s.active && !isNpc && hasMotifs && s.secondary == PERFORMANCE_NONE;
            && (TransitionOf(s, way, isNpc, hasMotifs) == Refused <==> way == Add && !second)
            && (TransitionOf(s, way, isNpc, hasMotifs) == Into(Secondary) <==> way != Replace && second)
  {
  }

  /** The song after performance n has been put into a slot. */
  function Begun(s: Song, n: int, slot: Slot): Song {
    match slot
    case Primary => Song(true, n, if s.active then s.secondary else PERFORMANCE_NONE, (0, 0, 0))
    case Secondary => Song(true, s.primary, n, (0, 0, 0))
  }

  /** A new performance is added behind the lead, or takes the place of the lead and leaves the other alone. */
  lemma BegunPlays(s: Song, n: int, way: Way, isNpc: bool, hasMotifs: bool)
    requires s.Normal() && IsValidPerformance(n) && n !in s.Playing()
    requires TransitionOf(s, way, isNpc, hasMotifs).Into?
    ensures var slot := TransitionOf(s, way, isNpc, hasMotifs).slot;
            && Begun(s, n, slot).Normal()
            && Begun(s, n, slot).Playing() ==
                 if slot == Secondary then s.Playing() + [n]
                 else [n] + s.Playing()[if s.active then 1 else 0..]
    ensures way == Replace ==> TransitionOf(s, way, isNpc, hasMotifs).slot == Primary
    ensures way == Add ==> TransitionOf(s, way, isNpc, hasMotifs).slot == Secondary && !isNpc && hasMotifs
  {
  }

  /** A verse that takes effect: it goes on, unless an effect ends the performance or stops the character. */
  predicate Verse(s: Song, slot: Slot, s': Song, ok: bool, quiet: bool) {
    if quiet then ok && s' == s
    else s' == SILENT || s' == if ok then s else Ended(s, slot)
  }

  /** The song after performance n was put into a slot and its first verse played: it goes on, unless an effect ends
      it at once or stops the character altogether. */
  predicate Played(s: Song, n: int, slot: Slot, s': Song, quiet: bool) {
    s' == Begun(s, n, slot) || (!quiet && (s' == Ended(Begun(s, n, slot), slot) || s' == SILENT))
  }

  /** The song after a start that was admitted or refused. */
  predicate Started(admitted: bool, s: Song, n: int, transition: Transition, s': Song, quiet: bool) {
    if admitted then transition.Into? && Played(s, n, transition.slot, s', quiet) else s' == s
  }

  /** What the perform command makes of a song whose fields are in order. */
  predicate Obeyed(request: Request, feats: set<int>, admitted: bool, isNpc: bool, hasMotifs: bool, s: Song, s': Song,
                   quiet: bool)
  {
    match request
    case Nothing(blanks) => s' == if blanks then s else SILENT
    case StopAll => s' == SILENT
    case StopOne(Found(n)) => s' == Dropped(s, n)
    case Perform(way, Found(n)) =>
      if n in feats then Started(admitted, s, n, TransitionOf(s, way, isNpc, hasMotifs), s', quiet) else s' == s
    case _ => s' == s
  }

  /** A start keeps the fields in order, and nothing but n is new. */
  lemma StartedKeeps(admitted: bool, s: Song, n: int, way: Way, isNpc: bool, hasMotifs: bool, s': Song, quiet: bool)
    requires s.Normal() && IsValidPerformance(n) && (admitted ==> n !in s.Playing())
    requires Started(admitted, s, n, TransitionOf(s, way, isNpc, hasMotifs), s', quiet)
    ensures s'.Normal() && forall m :: m in s'.Playing() ==> m in s.Playing() || m == n
  {
    if admitted {
      BegunPlays(s, n, way, isNpc, hasMotifs);
      var slot := TransitionOf(s, way, isNpc, hasMotifs).slot;
      EndedRemoves(Begun(s, n, slot), slot);
    }
  }

  // ----- The game -----

  class Game {
    /** All characters, in the order of character_list. */
    const characters: seq<Performer>
    /** The people of each room, in their order. */
    const people: map<int, seq<Performer>>
    const soundproof: set<int>

    constructor (characters: seq<Performer>, people: map<int, seq<Performer>>, soundproof: set<int>)
      ensures this.characters == characters && this.people == people && this.soundproof == soundproof
    {
      this.characters, this.people, this.soundproof := characters, people, soundproof;
    }

    ghost function All(): set<Performer> {
      set p | p in characters
    }

    function PeopleOf(room: int): seq<Performer> {
      if room in people then people[room] else []
    }

    /** The lists of people say where the characters are. */
    ghost predicate Valid()
      reads characters
    {
      && (forall i, j :: 0 <= i < j < |characters| ==> characters[i] != characters[j])
      && (forall r, p :: r in people && p in people[r] ==> p in characters && p.at.room == r)
      && NOWHERE !in people
      && (forall p :: p in characters && p.at.room != NOWHERE ==> p in PeopleOf(p.at.room))
    }

    /** The character can take up or go on with a performance, as far as other people are not concerned. */
    ghost predicate Able(ch: Performer, n: int, needCheck: bool)
      reads ch
    {
      && ch.at.room != NOWHERE
      && IsValidPerformance(n)
      && (ch.isNpc || ch.at.knowsMusic)
      && (needCheck && ch.active ==> !ch.isNpc && ch.at.hasMotifs && ch.secondary == PERFORMANCE_NONE)
      && !((ch.at.room in soundproof || ch.at.silenced) && NeedsSound(n))
      && ch.at.hit >= 0
      && ch.at.upright
    }

    lemma AbleIsFit(ch: Performer, n: int)
      ensures Able(ch, n, false) <==> Fit(ch.isNpc, ch.at, soundproof, n)
      ensures Able(ch, n, false) <==> n in FitFor(ch.isNpc, ch.at, soundproof)
    {
    }

    /** Somebody who is not a player without a connection performs in the same room. */
    lemma ContestedBy(ch: Performer)
      requires Valid() && ch.at.room != NOWHERE
      ensures Contested(ch) <==>
                exists p :: p in characters && p != ch && p.at.room == ch.at.room && p.active
                            && (p.isNpc || p.at.linked)
    {
    }

    /** Checks whether a performance is possible; players without a connection are stopped on the way. */
    method CanPerform(ch: Performer, n: int, needCheck: bool) returns (ok: bool)
      requires Valid() && ch in characters
      modifies All()
      ensures Valid() && forall p :: p in characters ==> p.at == old(p.at)
      ensures forall p :: p in characters ==>
                p.Sing() == old(p.Sing())
                || (p != ch && p.Linkless() && p in PeopleOf(ch.at.room) && p.Sing() == SILENT)
      ensures ok <==> old(Able(ch, n, needCheck))
                      && forall p :: p in PeopleOf(ch.at.room) && p != ch && old(p.active) ==> p.Linkless()
      ensures ok ==> forall p :: p in PeopleOf(ch.at.room) && p != ch ==> !p.active
    {
      if ch.at.room == NOWHERE {
        return false;
      }
      if !IsValidPerformance(n) {
        return false;
      }
      if !ch.isNpc && !ch.at.knowsMusic {
        return false;
      }
      if needCheck && ch.active {
        if !ch.isNpc && ch.at.hasMotifs {
          if ch.secondary != PERFORMANCE_NONE {
            return false;
          }
        } else {
          return false;
        }
      }
      if (ch.at.room in soundproof || ch.at.silenced) && NeedsSound(n) {
        return false;
      }
      if ch.at.hit < 0 || !ch.at.upright {
        return false;
      }
      var here := PeopleOf(ch.at.room);
      for i := 0 to |here|
        invariant Valid() && forall p :: p in characters ==> p.at == old(p.at)
        invariant forall p :: p in characters ==>
                    p.Sing() == old(p.Sing())
                    || (p != ch && p.Linkless() && p in PeopleOf(ch.at.room) && p.Sing() == SILENT)
        invariant forall k :: 0 <= k < i && here[k] != ch ==>
                    !here[k].active && (old(here[k].active) ==> here[k].Linkless())
      {
        var vict := here[i];
        if vict != ch && !vict.isNpc && vict.active && !vict.at.linked {
          vict.Stop();
        }
        if vict.at.room != NOWHERE && vict != ch && vict.active {
          return false;
        }
      }
      return true;
    }

    /** Everybody is in the same room and may have as many performances as before, and everybody but ch goes on as
        before or has stopped.  If no effect intervenes, only players without a connection in ch's room are stopped,
        and nothing else about anybody changes. */
    twostate predicate OthersSpared(ch: Performer, quiet: bool)
      reads ch, characters
    {
      && (forall p :: p in characters ==>
            p.at.room == old(p.at.room) && p.at.hasMotifs == old(p.at.hasMotifs) && (quiet ==> p.at == old(p.at)))
      && (forall p :: p in characters && p != ch ==>
            p.Sing() == old(p.Sing())
            || (p.Sing() == SILENT && (quiet ==> p.Linkless() && p in PeopleOf(ch.at.room))))
    }

    /** The effects of a performance.  Unless it is quiet, anybody may be hurt, silenced, thrown over or disconnected,
        and anybody may stop performing. */
    method Effects(ch: Performer, quiet: bool)
      modifies All()
      ensures OthersSpared(ch, quiet) && (ch in characters ==> ch.Sing() == old(ch.Sing()) || ch.Sing() == SILENT)
      ensures quiet ==> forall p :: p in characters ==> unchanged(p)
    {
      if quiet {
        return;
      }
      for i := 0 to |characters|
        invariant OthersSpared(ch, false)
        invariant forall p :: p in characters ==> p.Sing() == old(p.Sing()) || p.Sing() == SILENT
      {
        var p := characters[i];
        var happens: Circumstances := *;
        p.at := happens.(room := p.at.room, hasMotifs := p.at.hasMotifs);
        var stops: bool := *;
        if stops {
          p.Stop();
        }
      }
    }

    /** A connected character performs in the same room: a conflict. */
    ghost predicate Contested(ch: Performer)
      reads ch, PeopleOf(ch.at.room)
    {
      exists p :: p in PeopleOf(ch.at.room) && p != ch && p.active && !p.Linkless()
    }

    /** One verse of one slot.  Whoever meets another performer in the room loses the slot, and so does whoever is not
        able to play; else the verse takes effect, and if that is quiet the performance goes on. */
    method ProcessSlot(ch: Performer, slot: Slot, checkStutter: bool, quiet: bool) returns (ok: bool)
      requires Valid() && ch in characters
      modifies All()
      ensures Valid() && OthersSpared(ch, quiet)
      ensures var n := old(if slot == Primary then ch.primary else ch.secondary);
              if old(Able(ch, n, false) && !Contested(ch))
              then Verse(old(ch.Sing()), slot, ch.Sing(), ok, quiet)
              else !ok && ch.Sing() == Ended(old(ch.Sing()), slot)
      ensures ok ==> !Rivalled(ch)
    {
      var n := if slot == Primary then ch.primary else ch.secondary;
      if !IsValidPerformance(n) {
        ch.StopSlot(slot);
        return false;
      }
      ok := CanPerform(ch, n, false);
      if !ok {
        ch.StopSlot(slot);
        return;
      }
      Effects(ch, quiet);
      var processed, stutters: bool := *, *;
      if !quiet && !processed {
        ch.StopSlot(slot);
        return false;
      }
      if !quiet && checkStutter && stutters {
        ch.StopSlot(slot);
        return false;
      }
    }

    /** Somebody else performs in the same room. */
    ghost predicate Rivalled(ch: Performer)
      reads ch, PeopleOf(ch.at.room)
    {
      exists p :: p in PeopleOf(ch.at.room) && p != ch && p.active
    }

    /** The pulse of one character. */
    method PulseOne(ch: Performer, quiet: bool)
      requires Valid() && ch in characters
      modifies All()
      ensures Valid() && OthersSpared(ch, quiet)
      ensures !old(ch.active) ==> forall p :: p in characters ==> unchanged(p)
      ensures old(ch.active && ch.Linkless()) ==> ch.Sing() == SILENT
      ensures old(ch.active && !ch.Linkless()) ==>
                AfterVerses(old(Normalized(ch.Sing(), ch.MaySecond())), ch.Sing(),
                            old(Contested(ch)) || Rivalled(ch), quiet)
      ensures quiet && old(ch.active && !ch.Linkless()) ==>
                ch.Sing() == Quiet(old(Normalized(ch.Sing(), ch.MaySecond())), old(Contested(ch)),
                                   FitFor(ch.isNpc, old(ch.at), soundproof))
    {
      if !ch.active {
        return;
      }
      if !ch.isNpc && !ch.at.linked {
        ch.Stop();
        return;
      }
      NormalizedKeepsSound(ch.Sing(), ch.MaySecond());
      ch.Normalize();
      if !ch.active {
        return;
      }
      Verses(ch, quiet);
    }

    /** The verses of a character whose fields are in order. */
    method Verses(ch: Performer, quiet: bool)
      requires Valid() && ch in characters && ch.active && ch.Sing().Normal()
      modifies All()
      ensures Valid() && OthersSpared(ch, quiet)
      ensures AfterVerses(old(ch.Sing()), ch.Sing(), old(Contested(ch)) || Rivalled(ch), quiet)
      ensures quiet ==> ch.Sing() == Quiet(old(ch.Sing()), old(Contested(ch)),
                                           FitFor(ch.isNpc, old(ch.at), soundproof))
    {
      ProcessSlots(ch, quiet);
      Effects(ch, quiet);
    }

    /** A verse of each slot in use. */
    method ProcessSlots(ch: Performer, quiet: bool)
      requires Valid() && ch in characters && ch.active && ch.Sing().Normal()
      modifies All()
      ensures Valid() && OthersSpared(ch, quiet)
      ensures AfterVerses(old(ch.Sing()), ch.Sing(), old(Contested(ch)) || Rivalled(ch), quiet)
      ensures quiet ==> ch.Sing() == Quiet(old(ch.Sing()), old(Contested(ch)),
                                           FitFor(ch.isNpc, old(ch.at), soundproof))
    {
      AbleIsFit(ch, ch.primary);
      AbleIsFit(ch, ch.secondary);
      var ok := ProcessSlot(ch, Primary, true, quiet);
      if ch.active && ch.secondary != PERFORMANCE_NONE {
        ok := ProcessSlot(ch, Secondary, true, quiet);
      }
    }

    /** The perform command, without its messages: it puts the fields in order, whatever they were before, and then
        obeys.  `feats` are the performances the character knows; the last parameters say which actions are left and
        whether a move action is enough, and whether the first verse is quiet. */
    method DoPerform(ch: Performer, request: Request, feats: set<int>, hasMove: bool, hasStandard: bool,
                     efficient: bool, quiet: bool)
      requires Valid() && ch in characters
      requires (request.StopOne? || request.Perform?) && request.name.Found? ==> IsValidPerformance(request.name.n)
      modifies All()
      ensures Valid() && OthersSpared(ch, quiet) && ch.Sing().Normal()
      ensures Obeyed(request, feats,
                     old(Admits(ch, Normalized(ch.Sing(), ch.MaySecond()), request, hasMove, hasStandard, efficient)),
                     ch.isNpc, ch.at.hasMotifs, old(Normalized(ch.Sing(), ch.MaySecond())), ch.Sing(), quiet)
      // whoever starts is the only performer in the room
      ensures ch.active && !old(Normalized(ch.Sing(), ch.MaySecond())).active ==> !Rivalled(ch)
    {
      NormalizedKeepsSound(ch.Sing(), ch.MaySecond());
      ch.Normalize();
      Obey(ch, request, feats, hasMove, hasStandard, efficient, quiet);
    }

    /** The command on fields that are in order. */
    method Obey(ch: Performer, request: Request, feats: set<int>, hasMove: bool, hasStandard: bool, efficient: bool,
                quiet: bool)
      requires Valid() && ch in characters && ch.Sing().Normal()
      requires (request.StopOne? || request.Perform?) && request.name.Found? ==> IsValidPerformance(request.name.n)
      modifies All()
      ensures Valid() && OthersSpared(ch, quiet) && ch.Sing().Normal()
      ensures Obeyed(request, feats, old(Admits(ch, ch.Sing(), request, hasMove, hasStandard, efficient)),
                     ch.isNpc, ch.at.hasMotifs, old(ch.Sing()), ch.Sing(), quiet)
      ensures ch.active && !old(ch.active) ==> !Rivalled(ch)
    {
      ghost var s, admitted := ch.Sing(), Admits(ch, ch.Sing(), request, hasMove, hasStandard, efficient);
      match request
      case Nothing(blanks) =>
        if !blanks && ch.active {
          ch.Stop();
        }
      case List =>
      case NameMissing =>
      case StopAll =>
        if ch.active {
          ch.Stop();
        }
      case StopOne(name) =>
        if name.Found? {
          StopNamed(ch, name.n);
        }
      case Perform(way, name) =>
        if name.Found? && name.n in feats {
          Start(ch, way, name.n, hasMove, hasStandard, efficient, quiet);
          StartedKeeps(admitted, s, name.n, way, ch.isNpc, ch.at.hasMotifs, ch.Sing(), quiet);
        }
    }

    method StopNamed(ch: Performer, n: int)
      requires ch.Sing().Normal()
      modifies ch`active, ch`primary, ch`secondary, ch`crescendo
      ensures ch.Sing() == Dropped(old(ch.Sing()), n) && ch.Sing().Normal() && (ch.active ==> old(ch.active))
    {
      EndedRemoves(ch.Sing(), Primary);
      EndedRemoves(ch.Sing(), Secondary);
      if ch.primary == n {
        ch.StopSlot(Primary);
      } else if ch.secondary == n {
        ch.StopSlot(Secondary);
      }
    }

    ghost predicate Admits(ch: Performer, s: Song, request: Request, hasMove: bool, hasStandard: bool, efficient: bool)
      reads ch, PeopleOf(ch.at.room)
    {
      request.Perform? && request.name.Found?
      && Admissible(ch, s, request.way, request.name.n, hasMove, hasStandard, efficient)
    }

    /** Whether the command may start a performance the character knows: it is not among those of the song s, a slot is
        free for it, the character is able to play, nobody connected plays in the room, and an action is left. */
    ghost predicate Admissible(ch: Performer, s: Song, way: Way, n: int, hasMove: bool, hasStandard: bool,
                               efficient: bool)
      reads ch, PeopleOf(ch.at.room)
    {
      && s.primary != n && s.secondary != n
      && TransitionOf(s, way, ch.isNpc, ch.at.hasMotifs).Into?
      && Able(ch, n, false)
      && !Contested(ch)
      && (ch.isNpc || hasStandard || (efficient && hasMove))
    }

    /** Decides whether a performance may be started, and in which slot. */
    method Admit(ch: Performer, way: Way, n: int, hasMove: bool, hasStandard: bool, efficient: bool)
      returns (transition: Transition)
      requires Valid() && ch in characters
      modifies All()
      ensures Valid() && OthersSpared(ch, true) && ch.Sing() == old(ch.Sing())
      ensures transition == if old(Admissible(ch, ch.Sing(), way, n, hasMove, hasStandard, efficient))
                            then TransitionOf(ch.Sing(), way, ch.isNpc, ch.at.hasMotifs) else Refused
      ensures transition.Into? ==> !Rivalled(ch) && Able(ch, n, false)
    {
      if ch.primary == n || ch.secondary == n {
        return Refused;
      }
      transition := Into(Primary);
      if ch.active {
        if way == Add || (way != Replace && !ch.isNpc && ch.at.hasMotifs && ch.secondary == PERFORMANCE_NONE) {
          if ch.isNpc || !ch.at.hasMotifs || ch.secondary != PERFORMANCE_NONE {
            return Refused;
          }
          transition := Into(Secondary);
        }
      } else if way == Add {
        return Refused;
      }
      var ok := CanPerform(ch, n, false);
      if !ok {
        return Refused;
      }
      if !ch.isNpc && !(hasStandard || (efficient && hasMove)) {
        return Refused;
      }
    }

    /** Puts a performance into its slot and plays the first verse, whose effects may already end it. */
    method Play(ch: Performer, n: int, slot: Slot, quiet: bool)
      requires Valid() && ch in characters && (slot == Secondary ==> ch.active)
      requires !Rivalled(ch) && Able(ch, n, false)
      modifies All()
      ensures Valid() && OthersSpared(ch, quiet)
      ensures Played(old(ch.Sing()), n, slot, ch.Sing(), quiet)
      ensures ch.active && !old(ch.active) ==> !Rivalled(ch)
    {
      ch.Begin(n, slot);
      var ok := ProcessSlot(ch, slot, false, quiet);
    }

    /** Starts a performance the character knows, if that is possible. */
    method Start(ch: Performer, way: Way, n: int, hasMove: bool, hasStandard: bool, efficient: bool, quiet: bool)
      requires Valid() && ch in characters && IsValidPerformance(n) && ch.Sing().Normal()
      modifies All()
      ensures Valid() && OthersSpared(ch, quiet)
      ensures Started(old(Admissible(ch, ch.Sing(), way, n, hasMove, hasStandard, efficient)), old(ch.Sing()), n,
                      old(TransitionOf(ch.Sing(), way, ch.isNpc, ch.at.hasMotifs)), ch.Sing(), quiet)
      ensures ch.active && !old(ch.active) ==> !Rivalled(ch)
    {
      var transition := Admit(ch, way, n, hasMove, hasStandard, efficient);
      if transition.Into? {
        Play(ch, n, transition.slot, quiet);
      }
    }

    ghost function Songs(): (s: seq<Song>)
      reads characters
      ensures |s| == |characters| && forall i :: 0 <= i < |s| ==> s[i] == characters[i].Sing()
    {
      seq(|characters|, i requires 0 <= i < |characters| reads characters => characters[i].Sing())
    }

    /** Where everybody is, and who may have a second performance. */
    ghost function Places(): (s: seq<Place>)
      reads characters
      ensures |s| == |characters|
      ensures forall i :: 0 <= i < |s| ==> s[i] == Place(characters[i].at.room, characters[i].MaySecond())
    {
      seq(|characters|, i requires 0 <= i < |characters| reads characters =>
        Place(characters[i].at.room, characters[i].MaySecond()))
    }

    /** Who is not a player without a connection. */
    ghost function Connected(): (s: seq<bool>)
      reads characters
      ensures |s| == |characters| && forall i :: 0 <= i < |s| ==> s[i] == !characters[i].Linkless()
    {
      seq(|characters|, i requires 0 <= i < |characters| reads characters => !characters[i].Linkless())
    }

    /** What each character can perform, as far as others are not concerned. */
    ghost function Playable(): (s: seq<set<int>>)
      reads characters
      ensures |s| == |characters|
      ensures forall i :: 0 <= i < |s| ==> s[i] == FitFor(characters[i].isNpc, characters[i].at, soundproof)
    {
      seq(|characters|, i requires 0 <= i < |characters| reads characters =>
        FitFor(characters[i].isNpc, characters[i].at, soundproof))
    }

    /** In the lists of people, rivalry is being in the same room. */
    lemma PeopleAreRivals(n: nat, i: nat)
      requires Valid() && n < |characters| && i < |characters| && i != n
      ensures characters[i] in PeopleOf(characters[n].at.room) <==> Rivals(Places(), n, i)
    {
    }

    lemma AllPeopleAreRivals(n: nat)
      requires Valid() && n < |characters|
      ensures forall i :: 0 <= i < |characters| && i != n && characters[i] in PeopleOf(characters[n].at.room) ==>
                Rivals(Places(), n, i)
    {
      forall i | 0 <= i < |characters| && i != n
        ensures characters[i] in PeopleOf(characters[n].at.room) ==> Rivals(Places(), n, i)
      {
        PeopleAreRivals(n, i);
      }
    }

    lemma ContestedIsConflict(n: nat)
      requires Valid() && n < |characters|
      ensures Contested(characters[n]) <==> Conflict(Songs(), Places(), Connected(), n)
    {
      var ch := characters[n];
      if Contested(ch) {
        var p :| p in PeopleOf(ch.at.room) && p != ch && p.active && !p.Linkless();
        assert p in characters;
        var j :| 0 <= j < |characters| && characters[j] == p;
        PeopleAreRivals(n, j);
      }
      if Conflict(Songs(), Places(), Connected(), n) {
        var j :| 0 <= j < |characters| && Rivals(Places(), n, j) && Songs()[j].active && Connected()[j];
        PeopleAreRivals(n, j);
      }
    }

    lemma RivalledIsCompany(n: nat)
      requires Valid() && n < |characters|
      ensures Rivalled(characters[n]) <==> Company(Songs(), Places(), n)
    {
      var ch := characters[n];
      if Rivalled(ch) {
        var p :| p in PeopleOf(ch.at.room) && p != ch && p.active;
        assert p in characters;
        var j :| 0 <= j < |characters| && characters[j] == p;
        PeopleAreRivals(n, j);
      }
      if Company(Songs(), Places(), n) {
        var j :| 0 <= j < |characters| && Rivals(Places(), n, j) && Songs()[j].active;
        PeopleAreRivals(n, j);
      }
    }

    /** The pulse of the n-th character, on the songs of all characters. */
    method PulseAt(n: nat, quiet: bool)
      requires Valid() && n < |characters|
      modifies All()
      ensures Valid() && Places() == old(Places()) && (quiet ==> Connected() == old(Connected()))
      ensures PulseStep(old(Songs()), Songs(), Places(), old(Connected()), n, quiet)
      ensures quiet ==> Playable() == old(Playable())
                        && QuietStep(old(Songs()), Songs(), Places(), Connected(), Playable(), n)
    {
      ghost var at, linked, playable := Places(), Connected(), Playable();
      ContestedIsConflict(n);
      AllPeopleAreRivals(n);
      PulseOne(characters[n], quiet);
      assert Places() == at && (quiet ==> Connected() == linked && Playable() == playable);
      RivalledIsCompany(n);
    }

    /** The loop of the pulse. */
    method Beats(quiet: bool)
      requires Valid()
      modifies All()
      ensures Valid() && Places() == old(Places()) && (quiet ==> Connected() == old(Connected()))
      ensures Beaten(old(Songs()), Songs(), Places(), old(Connected()), old(Playable()), |characters|, quiet)
    {
      ghost var s0, linked, playable := Songs(), Connected(), Playable();
      SweepStarts(s0, Places(), linked, playable);
      for n := 0 to |characters|
        invariant Valid() && Places() == old(Places()) && (quiet ==> Connected() == linked)
        invariant quiet ==> Playable() == playable
        invariant Beaten(s0, Songs(), Places(), linked, playable, n, quiet)
      {
        ghost var before, now := Songs(), Connected();
        PulseAt(n, quiet);
        BeatStep(s0, before, Songs(), Places(), now, linked, playable, n, quiet);
      }
    }

    /** The pulse over all characters.  Whatever its effects are, two characters of one room both go on only if both
        had two performances; and if no effect intervenes, they both go on exactly if both had two and are connected. */
    method Pulse(quiet: bool)
      requires Valid()
      modifies All()
      ensures Valid() && Places() == old(Places()) && (quiet ==> Connected() == old(Connected()))
      ensures Swept(old(Songs()), Songs(), Places(), |characters|)
      ensures quiet ==> Duel(old(Songs()), Songs(), Places(), Connected(), |characters|)
      // without effects whoever has the room for itself keeps what it can play
      ensures quiet ==> Solo(old(Songs()), Songs(), Places(), Connected(), old(Playable()), |characters|)
      // the slot invariant is kept, and a pulse gives it to everybody who performs
      ensures forall p :: p in characters && old(p.active || p.Sing().Normal()) ==> p.Sing().Normal()
      ensures forall i, j :: 0 <= i < j < |characters| && Rivals(Places(), i, j) ==>
                (characters[i].active && characters[j].active ==>
                   old(Songs())[i].Slots(Places()[i].maySecond) == old(Songs())[j].Slots(Places()[j].maySecond) == 2)
      ensures quiet ==> forall i, j :: 0 <= i < j < |characters| && Rivals(Places(), i, j) ==>
                (characters[i].active && characters[j].active <==>
                   Strong(old(Songs()), Places(), Connected(), i) && Strong(old(Songs()), Places(), Connected(), j))
    {
      ghost var s0, linked := Songs(), Connected();
      Beats(quiet);
      OnePulse(s0, Songs(), Places(), linked, quiet);
      forall p | p in characters && old(p.active || p.Sing().Normal())
        ensures p.Sing().Normal()
      {
        var i :| 0 <= i < |characters| && characters[i] == p;
        assert s0[i] == old(p.Sing()) && Songs()[i] == p.Sing();
      }
    }

    /** The time between two pulses, in which nobody moves, learns or starts performing: spells may change a
        crescendo, anybody may be hurt, silenced, thrown over, connected or disconnected, and anybody may stop. */
    method Meanwhile()
      requires Valid()
      modifies All()
      ensures Valid() && Places() == old(Places())
      ensures Lessened(old(Songs()), Songs())
      ensures forall p :: p in characters && old(p.Sing().Normal()) ==> p.Sing().Normal()
    {
      for i := 0 to |characters|
        invariant forall p :: p in characters ==> p.at.room == old(p.at.room) && p.MaySecond() == old(p.MaySecond())
        invariant forall k :: i <= k < |characters| ==> characters[k].Sing() == old(characters[k].Sing())
        invariant forall k :: 0 <= k < i ==> LessThan(old(characters[k].Sing()), characters[k].Sing())
      {
        var happens: Circumstances, stops: bool, crescendo: (int, int, int) := *, *, *;
        characters[i].Pass(happens, stops, crescendo);
      }
    }

    /** Conflicts end: if nobody moves or starts performing, two pulses leave at most one performer in each room. */
    method TwoPulses(quiet: bool, quiet': bool)
      requires Valid()
      modifies All()
      ensures Valid() && Places() == old(Places())
      ensures forall i, j :: 0 <= i < j < |characters| && Rivals(Places(), i, j) ==>
                !(characters[i].active && characters[j].active)
      ensures forall p :: p in characters && old(p.active || p.Sing().Normal()) ==> p.Sing().Normal()
    {
      ghost var s0 := Songs();
      Pulse(quiet);
      ghost var s := Songs();
      Meanwhile();
      ghost var s1 := Songs();
      SweptLessened(s0, s, s1, Places());
      Pulse(quiet');
      TwoPulsesSuffice(s0, s1, Songs(), Places());
    }
  }

  // ----- Who can start and who can go on -----

  /** Somebody else performs in the same room, and is not a player whose connection is gone. */
  ghost predicate Disturbed(game: Game, ch: Performer)
    requires ch in game.characters
    reads game.characters
  {
    exists p :: p in game.characters && p != ch && p.at.room == ch.at.room && p.active && (p.isNpc || p.at.linked)
  }

  /** What it takes to start performance n, in terms of the fields. */
  ghost predicate Starts(game: Game, ch: Performer, way: Way, n: int, feats: set<int>, hasMove: bool, hasStandard: bool,
                         efficient: bool)
    requires ch in game.characters
    reads game.characters
  {
    && n in feats && ch.primary != n && ch.secondary != n
    && Fit(ch.isNpc, ch.at, game.soundproof, n)
    && (ch.isNpc || hasStandard || (efficient && hasMove))
    && !Disturbed(game, ch)
    && (way == Add ==> ch.active && !ch.isNpc && ch.at.hasMotifs && ch.secondary == PERFORMANCE_NONE)
  }

  /** The perform command without other effects, for somebody whose fields are in order: the performance starts exactly
      if these conditions hold, and then takes the place of the lead, unless it is begun as the second one. */
  method StartsExactly(game: Game, ch: Performer, way: Way, n: int, feats: set<int>, hasMove: bool, hasStandard: bool,
                       efficient: bool)
    requires game.Valid() && ch in game.characters && 0 <= n < MAX_PERFORMANCES
    requires ch.Sing().Normal() && (ch.secondary != PERFORMANCE_NONE ==> ch.isNpc || ch.at.hasMotifs)
    modifies game.All()
    ensures var s := old(ch.Sing());
            ch.Sing() ==
              if !old(Starts(game, ch, way, n, feats, hasMove, hasStandard, efficient)) then s
              else if s.active && way != Replace && !ch.isNpc && old(ch.at.hasMotifs) && s.secondary == PERFORMANCE_NONE
              then Song(true, s.primary, n, (0, 0, 0))
              else Song(true, n, s.secondary, (0, 0, 0))
  {
    EveryEntryIsValid(n);
    NormalizedKeepsSound(ch.Sing(), ch.MaySecond());
    TransitionsAre(ch.Sing(), way, ch.isNpc, ch.at.hasMotifs);
    game.AbleIsFit(ch, n);
    if ch.at.room != NOWHERE {
      game.ContestedBy(ch);
    }
    game.DoPerform(ch, Perform(way, Found(n)), feats, hasMove, hasStandard, efficient, true);
  }

  /** A pulse without other effects, for a connected performer whose fields are in order and who has the room to
      itself: it goes on with what it can play; if it cannot play the lead that ends, and else the other one ends if it
      cannot play that. */
  method GoesOnExactly(game: Game, ch: Performer)
    requires game.Valid() && ch in game.characters && ch.active && (ch.isNpc || ch.at.linked)
    requires ch.Sing().Normal() && (ch.secondary != PERFORMANCE_NONE ==> ch.isNpc || ch.at.hasMotifs)
    requires forall p :: p in game.characters && p != ch && p.at.room == ch.at.room ==> !p.active
    modifies game.All()
    ensures var s := old(ch.Sing());
            var lead := Fit(ch.isNpc, old(ch.at), game.soundproof, s.primary);
            var second := Fit(ch.isNpc, old(ch.at), game.soundproof, s.secondary);
            && (lead && (second || s.secondary == PERFORMANCE_NONE) ==> ch.Sing() == s)
            && (!lead ==> ch.Sing().Playing() == s.Playing()[1..])
            && (lead && !second ==> ch.Sing().Playing() == [s.primary])
  {
    ghost var s, at, songs := ch.Sing(), game.Places(), game.Songs();
    NormalizedKeepsSound(s, ch.MaySecond());
    EndedRemoves(s, Primary);
    EndedRemoves(s, Secondary);
    ghost var i :| 0 <= i < |game.characters| && game.characters[i] == ch;
    forall j | 0 <= j < |at| && Rivals(at, i, j)
      ensures !songs[j].active
    {
      assert game.characters[j] in game.characters;
    }
    game.Pulse(true);
  }

  /** The first performance of an unhurt bard that is alone in a room. */
  method Debut(n: int) returns (bard: Performer)
    requires 0 <= n < MAX_PERFORMANCES
    ensures fresh(bard) && bard.Sing() == Song(true, n, PERFORMANCE_NONE, (0, 0, 0))
  {
    bard := new Performer(false, Circumstances(5, true, false, true, false, 10, true));
    var game := new Game([bard], map[5 := [bard]], {});
    assert bard in game.characters;
    StartsExactly(game, bard, Plainly, n, {n}, false, true, false);
  }

  // ----- Runs -----

  /** What may happen in a game: a command or a stop by the k-th character, a pulse, or time. */
  datatype Event =
    | Command(k: nat, request: Request, feats: set<int>, hasMove: bool, hasStandard: bool, efficient: bool, quiet: bool)
    | Stopped(k: nat)
    | Beat(quiet: bool)
    | Time

  /** Names of performances are resolved to valid ones. */
  predicate Resolved(e: Event) {
    e.Command? && (e.request.StopOne? || e.request.Perform?) && e.request.name.Found? ==>
      IsValidPerformance(e.request.name.n)
  }

  /** The slot invariant holds for everybody. */
  ghost predicate AllNormal(game: Game)
    reads game.characters
  {
    forall p :: p in game.characters ==> p.Sing().Normal()
  }

  method Happen(game: Game, e: Event)
    requires game.Valid() && Resolved(e) && AllNormal(game)
    modifies game.All()
    ensures game.Valid() && AllNormal(game)
  {
    match e
    case Command(k, request, feats, hasMove, hasStandard, efficient, quiet) =>
      if k < |game.characters| {
        game.DoPerform(game.characters[k], request, feats, hasMove, hasStandard, efficient, quiet);
      }
    case Stopped(k) =>
      if k < |game.characters| {
        game.characters[k].Stop();
      }
    case Beat(quiet) =>
      game.Pulse(quiet);
    case Time =>
      game.Meanwhile();
  }

  /** Over any run of commands, stops, pulses and time the slot invariant is kept. */
  method Run(game: Game, events: seq<Event>)
    requires game.Valid() && AllNormal(game) && forall e :: e in events ==> Resolved(e)
    modifies game.All()
    ensures game.Valid() && AllNormal(game)
  {
    for i := 0 to |events|
      invariant game.Valid() && AllNormal(game)
    {
      assert events[i] in events;
      Happen(game, events[i]);
    }
  }

  // ----- Pulses, on the songs of all characters -----

  datatype Place = Place(room: int, maySecond: bool)

  /** Two different characters in the same room. */
  predicate Rivals(at: seq<Place>, i: nat, j: nat)
    requires i < |at| && j < |at|
  {
    i != j && at[i].room == at[j].room != NOWHERE
  }

  /** Somebody else in n's room performs. */
  ghost predicate Company(s: seq<Song>, at: seq<Place>, n: nat)
    requires |s| == |at| && n < |at|
  {
    exists j :: 0 <= j < |at| && Rivals(at, n, j) && s[j].active
  }

  /** Somebody else in n's room performs and is connected. */
  ghost predicate Conflict(s: seq<Song>, at: seq<Place>, linked: seq<bool>, n: nat)
    requires |s| == |at| == |linked| && n < |at|
  {
    exists j :: 0 <= j < |at| && Rivals(at, n, j) && s[j].active && linked[j]
  }

  /** The pulse of character n.  The others go on or stop; without effects only unconnected ones of the room stop.
      If n is idle nothing happens, if it is not connected it stops, and else its fields are put in order and its
      verses played. */
  ghost predicate PulseStep(s: seq<Song>, s': seq<Song>, at: seq<Place>, linked: seq<bool>, n: nat, quiet: bool) {
    && |s| == |s'| == |at| == |linked| && n < |at|
    && (forall i :: 0 <= i < |s| && i != n ==>
          s'[i] == s[i] || (s'[i] == SILENT && (quiet ==> Rivals(at, n, i) && !linked[i])))
    && (!s[n].active ==> s' == s)
    && (s[n].active && !linked[n] ==> s'[n] == SILENT)
    && (s[n].active && linked[n] ==>
          AfterVerses(Normalized(s[n], at[n].maySecond), s'[n],
                      Conflict(s, at, linked, n) || Company(s', at, n), quiet))
  }

  /** The songs after the pulses of the first n characters: nobody started, nobody gained a slot, songs in order stay
      so and those of performers are put in order, and whoever has had its pulse and still performs beside another
      performer has lost a slot. */
  ghost predicate Swept(s: seq<Song>, s': seq<Song>, at: seq<Place>, n: nat) {
    && |s| == |s'| == |at| && n <= |at|
    && (forall i :: 0 <= i < |s| ==>
          (s'[i].active ==> s[i].active) && s'[i].Slots(at[i].maySecond) <= s[i].Slots(at[i].maySecond))
    && (forall i :: n <= i < |s| ==> s'[i] == s[i] || s'[i] == SILENT)
    && (forall i :: 0 <= i < n && s'[i].active ==> s'[i].Normal())
    && (forall i :: 0 <= i < |s| && (s[i].Normal() || (i < n && s[i].active)) ==> s'[i].Normal())
    && (forall i :: 0 <= i < n && s'[i].active && Company(s', at, i) ==>
          s'[i].Slots(at[i].maySecond) < s[i].Slots(at[i].maySecond))
  }

  /** A connected character that performs two things. */
  predicate Strong(s: seq<Song>, at: seq<Place>, linked: seq<bool>, i: nat)
    requires |s| == |at| == |linked| && i < |at|
  {
    linked[i] && s[i].Slots(at[i].maySecond) == 2
  }

  /** After the quiet pulses of the first n characters: the unconnected ones among them are silent, and a strong one
      with a strong rival has lost exactly its lead. */
  ghost predicate Duel(s: seq<Song>, s': seq<Song>, at: seq<Place>, linked: seq<bool>, n: nat) {
    && |s| == |s'| == |at| == |linked| && n <= |at|
    && (forall i :: 0 <= i < n && !linked[i] ==> !s'[i].active)
    && (forall i, j :: 0 <= i < |s| && 0 <= j < |s| && Rivals(at, i, j) && Strong(s, at, linked, i)
                       && Strong(s, at, linked, j) ==>
          s'[i] == if i < n then Ended(Normalized(s[i], at[i].maySecond), Primary) else s[i])
  }

  /** The quiet pulse of character n, if it performs and is connected. */
  ghost predicate QuietStep(s: seq<Song>, s': seq<Song>, at: seq<Place>, linked: seq<bool>, playable: seq<set<int>>,
                            n: nat)
  {
    && |s| == |s'| == |at| == |linked| == |playable| && n < |at|
    && (s[n].active && linked[n] ==>
          s'[n] == Quiet(Normalized(s[n], at[n].maySecond), Conflict(s, at, linked, n), playable[n]))
  }

  /** After the quiet pulses of the first n characters: whoever had the room for itself has kept what it can play, if
      it is among them and connected. */
  ghost predicate Solo(s: seq<Song>, s': seq<Song>, at: seq<Place>, linked: seq<bool>, playable: seq<set<int>>,
                       n: nat)
  {
    && |s| == |s'| == |at| == |linked| == |playable| && n <= |at|
    && forall i :: 0 <= i < |s| && s[i].active && linked[i] && !Company(s, at, i) ==>
         s'[i] == if i < n then Quiet(Normalized(s[i], at[i].maySecond), false, playable[i]) else s[i]
  }

  lemma SoloStep(s0: seq<Song>, s: seq<Song>, s': seq<Song>, at: seq<Place>, linked: seq<bool>,
                 playable: seq<set<int>>, n: nat)
    requires Swept(s0, s, at, n) && Solo(s0, s, at, linked, playable, n)
    requires PulseStep(s, s', at, linked, n, true) && QuietStep(s, s', at, linked, playable, n)
    ensures Solo(s0, s', at, linked, playable, n + 1)
  {
    forall i | 0 <= i < |s| && s0[i].active && linked[i] && !Company(s0, at, i)
      ensures s'[i] == if i < n + 1 then Quiet(Normalized(s0[i], at[i].maySecond), false, playable[i]) else s0[i]
    {
      if i == n {
        forall j | 0 <= j < |at| && Rivals(at, n, j)
          ensures !s[j].active
        {
          assert !s0[j].active;
        }
      } else if Rivals(at, n, i) {
        assert Rivals(at, i, n) && !s0[n].active;
      }
    }
  }

  /** The state of the pulse when the first n characters have had theirs. */
  ghost predicate Beaten(s: seq<Song>, s': seq<Song>, at: seq<Place>, linked: seq<bool>, playable: seq<set<int>>,
                         n: nat, quiet: bool)
  {
    && Swept(s, s', at, n)
    && (quiet ==> Duel(s, s', at, linked, n) && Solo(s, s', at, linked, playable, n))
  }

  lemma BeatStep(s0: seq<Song>, s: seq<Song>, s': seq<Song>, at: seq<Place>, now: seq<bool>, linked: seq<bool>,
                 playable: seq<set<int>>, n: nat, quiet: bool)
    requires Beaten(s0, s, at, linked, playable, n, quiet) && PulseStep(s, s', at, now, n, quiet)
    requires quiet ==> now == linked && QuietStep(s, s', at, linked, playable, n)
    ensures Beaten(s0, s', at, linked, playable, n + 1, quiet)
  {
    SweepStep(s0, s, s', at, now, n, quiet);
    if quiet {
      DuelStep(s0, s, s', at, linked, n);
      SoloStep(s0, s, s', at, linked, playable, n);
    }
  }

  lemma SweepStarts(s: seq<Song>, at: seq<Place>, linked: seq<bool>, playable: seq<set<int>>)
    requires |s| == |at| == |linked| == |playable|
    ensures Beaten(s, s, at, linked, playable, 0, true)
  {
  }

  lemma SweepStep(s0: seq<Song>, s: seq<Song>, s': seq<Song>, at: seq<Place>, linked: seq<bool>, n: nat, quiet: bool)
    requires Swept(s0, s, at, n) && PulseStep(s, s', at, linked, n, quiet)
    ensures Swept(s0, s', at, n + 1)
  {
    assert SILENT.Normal() && SILENT.Slots(true) == 0 && SILENT.Slots(false) == 0;
    if s[n].active && linked[n] {
      VersesTakeSlots(s[n], s'[n], Conflict(s, at, linked, n) || Company(s', at, n), quiet, at[n].maySecond);
    }
    forall i | 0 <= i < n && s'[i].active && Company(s', at, i)
      ensures s'[i].Slots(at[i].maySecond) < s0[i].Slots(at[i].maySecond)
    {
      assert Company(s, at, i);
    }
  }

  /** A strong character has two performances in order, and one when its lead has ended. */
  lemma StrongEnds(s: Song, maySecond: bool)
    requires s.Slots(maySecond) == 2
    ensures s.active && Ended(Normalized(s, maySecond), Primary).active
    ensures Ended(Normalized(s, maySecond), Primary).Slots(maySecond) == 1
  {
  }

  lemma DuelStep(s0: seq<Song>, s: seq<Song>, s': seq<Song>, at: seq<Place>, linked: seq<bool>, n: nat)
    requires Duel(s0, s, at, linked, n) && PulseStep(s, s', at, linked, n, true)
    ensures Duel(s0, s', at, linked, n + 1)
  {
    forall i, j | 0 <= i < |s| && 0 <= j < |s| && Rivals(at, i, j)
                  && Strong(s0, at, linked, i) && Strong(s0, at, linked, j)
      ensures s'[i] == if i < n + 1 then Ended(Normalized(s0[i], at[i].maySecond), Primary) else s0[i]
    {
      StrongEnds(s0[i], at[i].maySecond);
      StrongEnds(s0[j], at[j].maySecond);
      assert Rivals(at, j, i) && s[j].active;
    }
  }

  lemma AtMostTwo(s: Song, maySecond: bool)
    ensures s.Slots(maySecond) <= 2
    ensures s.Normal() && s.active ==> s.Slots(maySecond) >= 1
  {
  }

  /** When one pulse is enough for two characters of one room: whatever the effects are, it is unless both had two
      performances; and without effects it is not exactly if both had two and are connected. */
  lemma OnePulse(s0: seq<Song>, s1: seq<Song>, at: seq<Place>, linked: seq<bool>, quiet: bool)
    requires Swept(s0, s1, at, |at|) && (quiet ==> Duel(s0, s1, at, linked, |at|))
    ensures forall i, j :: 0 <= i < j < |at| && Rivals(at, i, j) && s1[i].active && s1[j].active ==>
              s0[i].Slots(at[i].maySecond) == s0[j].Slots(at[j].maySecond) == 2
    ensures quiet ==> forall i, j :: 0 <= i < j < |at| && Rivals(at, i, j) ==>
              (s1[i].active && s1[j].active <==> Strong(s0, at, linked, i) && Strong(s0, at, linked, j))
  {
    forall i, j | 0 <= i < j < |at| && Rivals(at, i, j)
      ensures s1[i].active && s1[j].active ==>
                s0[i].Slots(at[i].maySecond) == s0[j].Slots(at[j].maySecond) == 2
      ensures quiet ==>
                (s1[i].active && s1[j].active <==> Strong(s0, at, linked, i) && Strong(s0, at, linked, j))
    {
      assert Rivals(at, j, i);
      AtMostTwo(s0[i], at[i].maySecond);
      AtMostTwo(s0[j], at[j].maySecond);
      AtMostTwo(s1[i], at[i].maySecond);
      AtMostTwo(s1[j], at[j].maySecond);
      if s1[i].active && s1[j].active {
        assert Company(s1, at, i) && Company(s1, at, j);
      }
      if quiet && Strong(s0, at, linked, i) && Strong(s0, at, linked, j) {
        StrongEnds(s0[i], at[i].maySecond);
        StrongEnds(s0[j], at[j].maySecond);
      }
    }
  }

  /** One pulse is not enough: of two connected characters in a room with two performances each, a quiet pulse ends
      exactly the lead of each, and both go on with their second performance. */
  method OnePulseIsNotEnough(game: Game, p: Performer, q: Performer)
    requires game.Valid() && game.characters == [p, q] && Rivals(game.Places(), 0, 1)
    requires Strong(game.Songs(), game.Places(), game.Connected(), 0)
    requires Strong(game.Songs(), game.Places(), game.Connected(), 1)
    modifies p, q
    ensures p.Sing() == old(Ended(Normalized(p.Sing(), p.MaySecond()), Primary)) && p.active
    ensures q.Sing() == old(Ended(Normalized(q.Sing(), q.MaySecond()), Primary)) && q.active
    ensures p.at.room == old(p.at.room) == q.at.room == old(q.at.room)
  {
    assert game.characters[0] == p && game.characters[1] == q;
    ghost var at, songs := game.Places(), game.Songs();
    game.Pulse(true);
    assert at[0] == Place(p.at.room, p.MaySecond()) && at[1] == Place(q.at.room, q.MaySecond());
    assert Rivals(at, 1, 0) && songs[0] == old(p.Sing()) && songs[1] == old(q.Sing());
  }

  /** There are such characters: they perform the first two performances of the table. */
  method Duet() returns (game: Game, p: Performer, q: Performer)
    ensures game.Valid() && game.characters == [p, q] && Rivals(game.Places(), 0, 1)
    ensures Strong(game.Songs(), game.Places(), game.Connected(), 0)
    ensures Strong(game.Songs(), game.Places(), game.Connected(), 1)
  {
    p := Duettist();
    q := Duettist();
    game := Stage(p, q);
  }

  /** Two characters with two performances in one room. */
  method Stage(p: Performer, q: Performer) returns (game: Game)
    requires p != q && p.at.room == q.at.room == 5 && !p.Linkless() && !q.Linkless()
    requires p.Sing().Slots(p.MaySecond()) == q.Sing().Slots(q.MaySecond()) == 2
    ensures game.Valid() && game.characters == [p, q] && Rivals(game.Places(), 0, 1)
    ensures Strong(game.Songs(), game.Places(), game.Connected(), 0)
    ensures Strong(game.Songs(), game.Places(), game.Connected(), 1)
  {
    game := new Game([p, q], map[5 := [p, q]], {});
    assert p in game.characters && q in game.characters;
    assert game.Places()[0] == Place(p.at.room, p.MaySecond()) && game.Places()[1] == Place(q.at.room, q.MaySecond());
  }

  /** A connected character with two performances. */
  method Duettist() returns (p: Performer)
    ensures fresh(p) && p.Sing() == Song(true, 0, 1, (0, 0, 0))
    ensures p.at.room == 5 && !p.Linkless() && p.Sing().Slots(p.MaySecond()) == 2
  {
    p := new Performer(false, Circumstances(5, true, true, true, false, 10, true));
    p.Begin(0, Primary);
    p.Begin(1, Secondary);
  }

  /** Between two pulses nobody starts performing. */
  ghost predicate Lessened(s: seq<Song>, s': seq<Song>) {
    && |s| == |s'|
    && forall i :: 0 <= i < |s| ==> LessThan(s[i], s'[i])
  }

  lemma SweptLessened(s0: seq<Song>, s: seq<Song>, s': seq<Song>, at: seq<Place>)
    requires Swept(s0, s, at, |at|) && Lessened(s, s')
    ensures Swept(s0, s', at, |at|)
  {
    assert SILENT.Normal() && SILENT.Slots(true) == 0 && SILENT.Slots(false) == 0;
    forall i | 0 <= i < |at| && s'[i].active && Company(s', at, i)
      ensures s'[i].Slots(at[i].maySecond) < s0[i].Slots(at[i].maySecond)
    {
      assert Company(s, at, i);
    }
  }

  /** Two performers in a room cannot both survive two pulses. */
  lemma TwoPulsesSuffice(s0: seq<Song>, s1: seq<Song>, s2: seq<Song>, at: seq<Place>)
    requires Swept(s0, s1, at, |at|) && Swept(s1, s2, at, |at|)
    ensures forall i, j :: 0 <= i < j < |at| && Rivals(at, i, j) ==> !(s2[i].active && s2[j].active)
  {
    forall i, j | 0 <= i < j < |at| && Rivals(at, i, j)
      ensures !(s2[i].active && s2[j].active)
    {
      AtMostTwo(s0[i], at[i].maySecond);
      AtMostTwo(s2[i], at[i].maySecond);
      if s2[i].active && s2[j].active {
        assert Rivals(at, j, i);
        assert Company(s2, at, i) && Company(s1, at, i);
      }
    }
  }
}
