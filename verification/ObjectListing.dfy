/** Listing the objects of a room or a pack (src/act.informative.c, list_obj_to_char_full): equal objects are shown
    once, with their number. */
module ObjectListing {

  /** An object as one character sees it: its texts, and whether the character can see it. */
  datatype Obj = Obj(shortDescription: string, name: string, description: string, visible: bool)

  /** How the list is shown: with the long descriptions, by holylight, with the invisible objects. */
  datatype View = View(long: bool, holylight: bool, always: bool)

  /** One line: the place of the object that is shown, and the number of objects it stands for. */
  datatype Line = Line(display: nat, count: nat)

  datatype Key = Key(shortDescription: string, name: string)

  function KeyOf(o: Obj): Key {
    Key(o.shortDescription, o.name)
  }

  predicate Counted(o: Obj, v: View) {
    o.visible || v.always
  }

  // ----- The specification: one line for each group, at the place of its first member -----

  predicate IsFirst(list: seq<Obj>, i: nat)
    requires i < |list|
  {
    forall j :: 0 <= j < i ==> KeyOf(list[j]) != KeyOf(list[i])
  }

  /** The number of objects with this key that count, from a place on. */
  function CountFrom(list: seq<Obj>, key: Key, v: View, from: nat): nat
    requires from <= |list|
    decreases |list| - from
  {
    if from == |list| then 0
    else (if KeyOf(list[from]) == key && Counted(list[from], v) then 1 else 0) + CountFrom(list, key, v, from + 1)
  }

  /** The first object with this key that counts, from a place on; the end of the list if there is none. */
  function NextCounted(list: seq<Obj>, key: Key, v: View, from: nat): (r: nat)
    requires from <= |list|
    ensures from <= r <= |list|
    ensures r < |list| ==> KeyOf(list[r]) == key && Counted(list[r], v)
    ensures forall j :: from <= j < r ==> KeyOf(list[j]) != key || !Counted(list[j], v)
    decreases |list| - from
  {
    if from == |list| || (KeyOf(list[from]) == key && Counted(list[from], v)) then from
    else NextCounted(list, key, v, from + 1)
  }

  /** The object that stands for the group which begins at a place: the first one, or if that is not visible the
      next one that counts. */
  function Display(list: seq<Obj>, i: nat, v: View): (r: nat)
    requires i < |list|
    ensures i <= r < |list| && KeyOf(list[r]) == KeyOf(list[i])
  {
    var next := NextCounted(list, KeyOf(list[i]), v, i + 1);
    if list[i].visible || next == |list| then i else next
  }

  /** A description that begins with a dot hides a line of a room, except from holylight. */
  predicate Hidden(o: Obj, v: View) {
    v.long && o.description != "" && o.description[0] == '.' && !v.holylight
  }

  predicate Shown(list: seq<Obj>, i: nat, v: View)
    requires i < |list|
  {
    IsFirst(list, i) && CountFrom(list, KeyOf(list[i]), v, i) > 0 && !Hidden(list[Display(list, i, v)], v)
  }

  /** The line for the group that begins at a place. */
  function LineOf(list: seq<Obj>, i: nat, v: View): Line
    requires i < |list|
  {
    Line(Display(list, i, v), CountFrom(list, KeyOf(list[i]), v, i))
  }

  /** The lines for the groups that begin among the first n objects. */
  function Lines(list: seq<Obj>, v: View, n: nat): seq<Line>
    requires n <= |list|
  {
    if n == 0 then []
    else if Shown(list, n - 1, v) then Lines(list, v, n - 1) + [LineOf(list, n - 1, v)]
    else Lines(list, v, n - 1)
  }

  // ----- Each group is shown once -----

  lemma {:induction false} LinesAreGroups(list: seq<Obj>, v: View, n: nat, k: nat)
    requires n <= |list| && k < |Lines(list, v, n)|
    ensures Lines(list, v, n)[k].display < |list|
    ensures exists i :: 0 <= i < n && Shown(list, i, v) && Lines(list, v, n)[k] == LineOf(list, i, v)
  {
    if k < |Lines(list, v, n - 1)| {
      LinesAreGroups(list, v, n - 1, k);
    } else {
      assert Shown(list, n - 1, v);
    }
  }

  /** The objects that a line stands for: those that count and share the short description and the name of the one
      that is shown. */
  ghost function StandsFor(list: seq<Obj>, v: View, shown: Obj, from: nat): set<nat>
    requires from <= |list|
  {
    set j: nat | from <= j < |list| && list[j].shortDescription == shown.shortDescription && list[j].name == shown.name
                 && (list[j].visible || v.always)
  }

  lemma StandsForOneMore(list: seq<Obj>, v: View, shown: Obj, from: nat)
    requires from < |list|
    ensures var rest := StandsFor(list, v, shown, from + 1);
            && from !in rest
            && StandsFor(list, v, shown, from) ==
                 if KeyOf(list[from]) == KeyOf(shown) && Counted(list[from], v) then rest + {from} else rest
  {
  }

  lemma OneMore(s: set<nat>, x: nat)
    requires x !in s
    ensures |s + {x}| == |s| + 1
  {
  }

  lemma {:induction false} CountIsNumber(list: seq<Obj>, v: View, shown: Obj, from: nat)
    requires from <= |list|
    ensures CountFrom(list, KeyOf(shown), v, from) == |StandsFor(list, v, shown, from)|
    decreases |list| - from
  {
    if from < |list| {
      CountIsNumber(list, v, shown, from + 1);
      StandsForOneMore(list, v, shown, from);
      OneMore(StandsFor(list, v, shown, from + 1), from);
    }
  }

  /** The number of a line is the number of objects that share both texts with the one it shows, and two objects share
      a line only if they do. */
  lemma LineStandsFor(list: seq<Obj>, v: View, k: nat)
    requires k < |Lines(list, v, |list|)|
    ensures var line := Lines(list, v, |list|)[k];
            line.display < |list| && line.count == |StandsFor(list, v, list[line.display], 0)|
  {
    LinesAreGroups(list, v, |list|, k);
    var i :| 0 <= i < |list| && Shown(list, i, v) && Lines(list, v, |list|)[k] == LineOf(list, i, v);
    CountSkips(list, i, v, 0);
    CountIsNumber(list, v, list[Display(list, i, v)], 0);
  }

  /** No two lines show objects with the same short description and name. */
  lemma {:induction false} EachGroupOnce(list: seq<Obj>, v: View, n: nat, a: nat, b: nat)
    requires n <= |list| && a < b < |Lines(list, v, n)|
    ensures Lines(list, v, n)[a].display < |list| && Lines(list, v, n)[b].display < |list|
    ensures var first, second := list[Lines(list, v, n)[a].display], list[Lines(list, v, n)[b].display];
            !(first.shortDescription == second.shortDescription && first.name == second.name)
  {
    LinesAreGroups(list, v, n, a);
    LinesAreGroups(list, v, n, b);
    if b < |Lines(list, v, n - 1)| {
      EachGroupOnce(list, v, n - 1, a, b);
    } else {
      LinesAreGroups(list, v, n - 1, a);
    }
  }

  // ----- Which groups are shown -----

  /** A group is shown: some line shows an object with its key. */
  ghost predicate HasLine(list: seq<Obj>, v: View, n: nat, key: Key)
    requires n <= |list|
  {
    exists k :: 0 <= k < |Lines(list, v, n)| && Lines(list, v, n)[k].display < |list|
             && KeyOf(list[Lines(list, v, n)[k].display]) == key
  }

  predicate HasCounted(list: seq<Obj>, v: View, key: Key) {
    exists j :: 0 <= j < |list| && KeyOf(list[j]) == key && Counted(list[j], v)
  }

  lemma {:induction false} ShownHasLine(list: seq<Obj>, v: View, n: nat, i: nat)
    requires i < n <= |list| && Shown(list, i, v)
    ensures HasLine(list, v, n, KeyOf(list[i]))
  {
    var lines, before := Lines(list, v, n), Lines(list, v, n - 1);
    if i == n - 1 {
      assert lines[|before|] == LineOf(list, i, v);
    } else {
      ShownHasLine(list, v, n - 1, i);
      var k :| 0 <= k < |before| && before[k].display < |list| && KeyOf(list[before[k].display]) == KeyOf(list[i]);
      assert lines[k] == before[k];
    }
  }

  lemma {:induction false} CountIsPositive(list: seq<Obj>, key: Key, v: View, from: nat)
    requires from <= |list|
    ensures CountFrom(list, key, v, from) > 0 <==> NextCounted(list, key, v, from) < |list|
    decreases |list| - from
  {
    if from < |list| {
      CountIsPositive(list, key, v, from + 1);
    }
  }

  /** The first object with the key of a given one. */
  lemma {:induction false} FirstOf(list: seq<Obj>, j: nat) returns (i: nat)
    requires j < |list|
    ensures i <= j && KeyOf(list[i]) == KeyOf(list[j]) && IsFirst(list, i)
    decreases j
  {
    i := j;
    if !IsFirst(list, j) {
      var h :| 0 <= h < j && KeyOf(list[h]) == KeyOf(list[j]);
      i := FirstOf(list, h);
    }
  }

  /** A group is shown exactly when it has a member that counts and the member that stands for it is not hidden. */
  lemma ShownExactly(list: seq<Obj>, v: View, i: nat)
    requires i < |list| && IsFirst(list, i)
    ensures var key := KeyOf(list[i]);
            HasLine(list, v, |list|, key) <==> HasCounted(list, v, key) && !Hidden(list[Display(list, i, v)], v)
  {
    CountIsPositive(list, KeyOf(list[i]), v, i);
    if HasLine(list, v, |list|, KeyOf(list[i])) {
      var k :| 0 <= k < |Lines(list, v, |list|)| && Lines(list, v, |list|)[k].display < |list|
            && KeyOf(list[Lines(list, v, |list|)[k].display]) == KeyOf(list[i]);
      LinesAreGroups(list, v, |list|, k);
    } else if Shown(list, i, v) {
      ShownHasLine(list, v, |list|, i);
    }
  }

  // ----- Counts are conserved -----

  function Sum(lines: seq<Line>): nat {
    if lines == [] then 0 else Sum(lines[..|lines| - 1]) + lines[|lines| - 1].count
  }

  /** The number of objects that count. */
  function Total(list: seq<Obj>, v: View): nat {
    if list == [] then 0 else (if Counted(list[0], v) then 1 else 0) + Total(list[1..], v)
  }

  /** The number of objects that count and have one of these keys. */
  function Among(list: seq<Obj>, keys: set<Key>, v: View): nat {
    if list == [] then 0
    else (if KeyOf(list[0]) in keys && Counted(list[0], v) then 1 else 0) + Among(list[1..], keys, v)
  }

  /** The keys of the groups that begin among the first n objects and are shown. */
  function ShownKeys(list: seq<Obj>, v: View, n: nat): set<Key>
    requires n <= |list|
  {
    set i | 0 <= i < n && Shown(list, i, v) :: KeyOf(list[i])
  }

  lemma {:induction false} CountDrops(list: seq<Obj>, key: Key, v: View, from: nat)
    requires 1 <= from <= |list|
    ensures CountFrom(list, key, v, from) == CountFrom(list[1..], key, v, from - 1)
    decreases |list| - from
  {
    if from < |list| {
      CountDrops(list, key, v, from + 1);
      assert list[1..][from - 1] == list[from];
    }
  }

  lemma {:induction false} AmongMore(list: seq<Obj>, keys: set<Key>, key: Key, v: View)
    requires key !in keys
    ensures Among(list, keys + {key}, v) == Among(list, keys, v) + CountFrom(list, key, v, 0)
  {
    if list != [] {
      AmongMore(list[1..], keys, key, v);
      CountDrops(list, key, v, 1);
    }
  }

  lemma {:induction false} CountSkips(list: seq<Obj>, i: nat, v: View, from: nat)
    requires from <= i < |list| && IsFirst(list, i)
    ensures CountFrom(list, KeyOf(list[i]), v, from) == CountFrom(list, KeyOf(list[i]), v, i)
    decreases i - from
  {
    if from < i {
      CountSkips(list, i, v, from + 1);
    }
  }

  lemma {:induction false} AmongNone(list: seq<Obj>, v: View)
    ensures Among(list, {}, v) == 0
  {
    if list != [] {
      AmongNone(list[1..], v);
    }
  }

  lemma KeysGrow(list: seq<Obj>, v: View, n: nat)
    requires 0 < n <= |list|
    ensures ShownKeys(list, v, n)
         == ShownKeys(list, v, n - 1) + if Shown(list, n - 1, v) then {KeyOf(list[n - 1])} else {}
    ensures Shown(list, n - 1, v) ==> KeyOf(list[n - 1]) !in ShownKeys(list, v, n - 1)
  {
  }

  lemma SumOfOneMore(lines: seq<Line>, line: Line)
    ensures Sum(lines + [line]) == Sum(lines) + line.count
  {
    assert (lines + [line])[..|lines|] == lines;
  }

  /** In every mode the counts that are shown add up to the number of objects in the groups that are shown. */
  lemma {:induction false} SumOfLines(list: seq<Obj>, v: View, n: nat)
    requires n <= |list|
    ensures Sum(Lines(list, v, n)) == Among(list, ShownKeys(list, v, n), v)
  {
    if n == 0 {
      assert ShownKeys(list, v, 0) == {};
      AmongNone(list, v);
    } else {
      SumOfLines(list, v, n - 1);
      KeysGrow(list, v, n);
      if Shown(list, n - 1, v) {
        AmongMore(list, ShownKeys(list, v, n - 1), KeyOf(list[n - 1]), v);
        CountSkips(list, n - 1, v, 0);
        SumOfOneMore(Lines(list, v, n - 1), LineOf(list, n - 1, v));
      } else {
        assert ShownKeys(list, v, n) == ShownKeys(list, v, n - 1);
      }
    }
  }

  lemma {:induction false} AmongAll(list: seq<Obj>, keys: set<Key>, v: View)
    requires forall j :: 0 <= j < |list| && Counted(list[j], v) ==> KeyOf(list[j]) in keys
    ensures Among(list, keys, v) == Total(list, v)
  {
    if list != [] {
      forall j | 0 <= j < |list[1..]| && Counted(list[1..][j], v)
        ensures KeyOf(list[1..][j]) in keys
      {
        assert list[1..][j] == list[j + 1];
      }
      AmongAll(list[1..], keys, v);
    }
  }

  /** When no line can be hidden, the counts that are shown add up to the number of objects that count. */
  lemma CountsConserved(list: seq<Obj>, v: View)
    requires !v.long || v.holylight
    ensures Sum(Lines(list, v, |list|)) == Total(list, v)
  {
    SumOfLines(list, v, |list|);
    forall j | 0 <= j < |list| && Counted(list[j], v)
      ensures KeyOf(list[j]) in ShownKeys(list, v, |list|)
    {
      var i := FirstOf(list, j);
      CountIsPositive(list, KeyOf(list[i]), v, i);
      assert Shown(list, i, v);
    }
    AmongAll(list, ShownKeys(list, v, |list|), v);
  }

  // ----- What a line shows -----

  /** Unless the invisible are listed too, a line shows the first visible object of its group. */
  lemma ShowsFirstVisible(list: seq<Obj>, v: View, k: nat)
    requires !v.always && k < |Lines(list, v, |list|)|
    ensures var d := Lines(list, v, |list|)[k].display;
      d < |list| && list[d].visible && forall j :: 0 <= j < d && list[j].visible ==> KeyOf(list[j]) != KeyOf(list[d])
  {
    LinesAreGroups(list, v, |list|, k);
    var i :| 0 <= i < |list| && Shown(list, i, v) && Lines(list, v, |list|)[k] == LineOf(list, i, v);
    CountIsPositive(list, KeyOf(list[i]), v, i);
  }

  predicate SecondIsVisible(list: seq<Obj>, i: nat)
    requires i < |list|
  {
    exists j :: i < j < |list| && KeyOf(list[j]) == KeyOf(list[i]) && list[j].visible
             && forall h :: i < h < j ==> KeyOf(list[h]) != KeyOf(list[i])
  }

  /** When the invisible are listed too, a line shows a visible object exactly when one of the first two members of
      the group is visible: behind an invisible first one the second is taken unseen. */
  lemma AlwaysShowsOneOfTwo(list: seq<Obj>, v: View, i: nat)
    requires v.always && i < |list|
    ensures list[Display(list, i, v)].visible <==> list[i].visible || SecondIsVisible(list, i)
  {
    var j := NextCounted(list, KeyOf(list[i]), v, i + 1);
    if j < |list| && list[j].visible {
      assert forall h :: i < h < j ==> KeyOf(list[h]) != KeyOf(list[i]);
    }
  }

  // ----- The two nested loops -----

  /** Looks for an earlier object of the same group. */
  method CountedEarlier(list: seq<Obj>, i: nat) returns (found: bool)
    requires i < |list|
    ensures found == !IsFirst(list, i)
  {
    var j := 0;
    while j != i && !(list[j].shortDescription == list[i].shortDescription && list[j].name == list[i].name)
      invariant j <= i && forall h :: 0 <= h < j ==> KeyOf(list[h]) != KeyOf(list[i])
      decreases i - j
    {
      j := j + 1;
    }
    return j != i;
  }

  /** Counts a group from its first member on and finds the member that stands for it. */
  method CountGroup(list: seq<Obj>, i: nat, v: View) returns (display: nat, num: nat)
    requires i < |list|
    ensures display == Display(list, i, v) && num == CountFrom(list, KeyOf(list[i]), v, i)
  {
    display, num := i, 0;
    var j := i;
    ghost var key := KeyOf(list[i]);
    ghost var next := NextCounted(list, key, v, i + 1);
    while j < |list|
      invariant i <= j <= |list|
      invariant num + CountFrom(list, key, v, j) == CountFrom(list, key, v, i)
      invariant display == if list[i].visible || j <= next then i else next
    {
      if list[j].shortDescription == list[i].shortDescription && list[j].name == list[i].name {
        if list[j].visible || v.always {
          num := num + 1;
          if display == i && !list[display].visible {
            display := j;
          }
        }
      }
      j := j + 1;
    }
  }

  /** Lists the objects, and says whether "Nothing." was printed. */
  method ListObjects(list: seq<Obj>, v: View, show: bool) returns (lines: seq<Line>, nothing: bool)
    ensures lines == Lines(list, v, |list|)
    ensures nothing <==> show && lines == []
  {
    lines := [];
    for i := 0 to |list|
      invariant lines == Lines(list, v, i)
    {
      var earlier := CountedEarlier(list, i);
      if earlier {
        continue;
      }
      var display, num := CountGroup(list, i, v);
      if num > 0 && (!v.long || list[display].description == "" || list[display].description[0] != '.' || v.holylight) {
        lines := lines + [Line(display, num)];
      }
    }
    nothing := lines == [] && show;
  }
}
