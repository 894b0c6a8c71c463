/** Rebuilding the command table with the socials in it, and finding a social by its command number
    (src/act.social.c). */
module SocialCommands {

  const RESERVE_CMDS := 7

  // ----- Comparing names -----

  function LowerCode(c: char): int {
    if 'A' <= c <= 'Z' then c as int + 32 else c as int
  }

  /** The code of the first character, or 0 at the end of the string. */
  function Head(s: string): int {
    if s == "" then 0 else LowerCode(s[0])
  }

  function Tail(s: string): string {
    if s == "" then "" else s[1..]
  }

  /** The case-insensitive comparison of two strings: the difference at the first place they differ. */
  function StrCmp(a: string, b: string): int
    decreases |a| + |b|
  {
    if a == "" && b == "" then 0
    else if Head(a) != Head(b) then Head(a) - Head(b)
    else StrCmp(Tail(a), Tail(b))
  }

  predicate Le(a: string, b: string) {
    StrCmp(a, b) <= 0
  }

  lemma {:induction false} LeTotal(a: string, b: string)
    ensures StrCmp(a, b) == -StrCmp(b, a)
    decreases |a| + |b|
  {
    if a != "" || b != "" {
      LeTotal(Tail(a), Tail(b));
    }
  }

  lemma {:induction false} LeTransitive(a: string, b: string, c: string)
    requires Le(a, b) && Le(b, c)
    ensures Le(a, c)
    ensures StrCmp(a, b) < 0 || StrCmp(b, c) < 0 ==> StrCmp(a, c) < 0
    decreases |a| + |b| + |c|
  {
    if (a != "" || b != "" || c != "") && Head(a) == Head(b) == Head(c) {
      LeTransitive(Tail(a), Tail(b), Tail(c));
    }
  }

  /** A string of C. */
  predicate NoNul(s: string) {
    forall i :: 0 <= i < |s| ==> s[i] != '\0'
  }

  function ToLower(c: char): char {
    if 'A' <= c <= 'Z' then (c as int - 'A' as int + 'a' as int) as char else c
  }

  /** In lower case both strings agree before place k, and at k the first one ends, and the second does not, or has the
      smaller character. */
  predicate SmallerAt(a: string, b: string, k: nat) {
    && k <= |a| && k < |b|
    && (forall i :: 0 <= i < k ==> ToLower(a[i]) == ToLower(b[i]))
    && (k == |a| || ToLower(a[k]) < ToLower(b[k]))
  }

  predicate SameInLower(a: string, b: string) {
    |a| == |b| && forall i :: 0 <= i < |a| ==> ToLower(a[i]) == ToLower(b[i])
  }

  lemma {:induction false} SmallerIsLess(a: string, b: string, k: nat)
    requires NoNul(a) && NoNul(b) && SmallerAt(a, b, k)
    ensures StrCmp(a, b) < 0
  {
    assert Head(b) == ToLower(b[0]) as int && (a != "" ==> Head(a) == ToLower(a[0]) as int);
    if k > 0 {
      assert ToLower(a[0]) == ToLower(b[0]);
      assert forall i :: 0 <= i < k - 1 ==> a[1..][i] == a[i + 1] && b[1..][i] == b[i + 1];
      SmallerIsLess(a[1..], b[1..], k - 1);
    }
  }

  /** Where two strings first differ. */
  lemma {:induction false} FirstDifference(a: string, b: string) returns (k: nat)
    requires NoNul(a) && NoNul(b)
    ensures SameInLower(a, b) || SmallerAt(a, b, k) || SmallerAt(b, a, k)
    ensures SameInLower(a, b) ==> StrCmp(a, b) == 0
    decreases |a|
  {
    k := 0;
    if a != "" && b != "" && ToLower(a[0]) == ToLower(b[0]) {
      k := FirstDifference(a[1..], b[1..]);
      assert forall i :: 1 <= i <= k && i < |a| ==> a[1..][i - 1] == a[i];
      assert forall i :: 1 <= i <= k && i < |b| ==> b[1..][i - 1] == b[i];
      if SameInLower(a[1..], b[1..]) {
        assert forall i :: 1 <= i < |a| ==> a[1..][i - 1] == a[i] && b[1..][i - 1] == b[i];
      }
      k := k + 1;
      assert SameInLower(a, b) ==> SameInLower(a[1..], b[1..]);
    }
  }

  /** What the comparison decides: the first string is the smaller one exactly if at the first place at which they
      differ in lower case it ends or has the smaller character, and they are equal exactly if they are in lower
      case. */
  lemma StrCmpDecides(a: string, b: string)
    requires NoNul(a) && NoNul(b)
    ensures StrCmp(a, b) < 0 <==> exists k :: SmallerAt(a, b, k)
    ensures StrCmp(a, b) == 0 <==> SameInLower(a, b)
  {
    var k := FirstDifference(a, b);
    forall n | SmallerAt(a, b, n)
      ensures StrCmp(a, b) < 0
    {
      SmallerIsLess(a, b, n);
    }
    if SmallerAt(b, a, k) {
      SmallerIsLess(b, a, k);
      LeTotal(a, b);
    }
  }

  /** A name comes before every longer one that begins with it. */
  lemma PrefixIsLess(a: string, b: string)
    requires NoNul(a) && NoNul(b) && b != ""
    ensures StrCmp(a, a + b) < 0 && !Le(a + b, a)
  {
    SmallerIsLess(a, a + b, |a|);
    LeTotal(a, a + b);
  }

  // ----- Tables -----

  datatype Handler = DoAction | Other(id: int)

  datatype Command = Command(command: string, sortAs: string, minPosition: int, handler: Handler,
                             minLevel: int, subcmd: int)

  datatype Social = Social(command: string, sortAs: string, minPosition: int, minLevel: int,
                           messages: seq<string>, actNr: int)

  /** The last entry of cmd_info has a command that starts with a newline. */
  predicate IsEnd(c: Command) {
    c.command != "" && c.command[0] == '\n'
  }

  predicate CommandInfo(info: seq<Command>) {
    |info| > 0 && IsEnd(info[|info| - 1]) && forall i :: 0 <= i < |info| - 1 ==> !IsEnd(info[i])
  }

  /** The entry of a social in the combined table. */
  function EntryOf(s: Social): Command {
    Command(s.command, s.sortAs, s.minPosition, DoAction, s.minLevel, 0)
  }

  ghost predicate Sorted(s: seq<Social>) {
    forall i, j :: 0 <= i < j < |s| ==> Le(s[i].sortAs, s[j].sortAs)
  }

  /** Of sorted socials the one with the shorter name comes first: "bow" before "bowl". */
  lemma ShorterNameFirst(s: seq<Social>, i: nat, j: nat, rest: string)
    requires Sorted(s) && i < |s| && j < |s| && s[j].sortAs == s[i].sortAs + rest
    requires NoNul(s[j].sortAs) && rest != ""
    ensures i < j
  {
    assert forall k :: 0 <= k < |s[i].sortAs| ==> s[j].sortAs[k] == s[i].sortAs[k];
    assert forall k :: 0 <= k < |rest| ==> s[j].sortAs[|s[i].sortAs| + k] == rest[k];
    PrefixIsLess(s[i].sortAs, rest);
  }

  // ----- Where each entry belongs -----

  /** The first entry after the reserved prefix that sorts strictly after a name, or the length of the table. */
  function FirstAfter(info: seq<Command>, name: string, from: nat := RESERVE_CMDS): (k: nat)
    ensures from <= |info| ==> from <= k <= |info|
    ensures from > |info| ==> k == |info|
    ensures forall i :: from <= i < k ==> Le(info[i].sortAs, name)
    ensures from <= k < |info| ==> StrCmp(info[k].sortAs, name) > 0
    decreases |info| - from
  {
    if from >= |info| then |info|
    else if StrCmp(info[from].sortAs, name) > 0 then from
    else FirstAfter(info, name, from + 1)
  }

  lemma FirstAfterMonotone(info: seq<Command>, a: string, b: string)
    requires Le(a, b)
    ensures FirstAfter(info, a) <= FirstAfter(info, b)
  {
    var k := FirstAfter(info, b);
    if RESERVE_CMDS <= k < FirstAfter(info, a) {
      LeTransitive(info[k].sortAs, a, b);
    }
  }

  /** The socials can all be placed: some entry after the reserved prefix, the terminator included, sorts
      after the greatest of them. */
  ghost predicate Fits(info: seq<Command>, socials: seq<Social>) {
    socials != [] ==> FirstAfter(info, socials[|socials| - 1].sortAs) < |info|
  }

  /** How many socials belong before entry i of cmd_info. */
  function SocialsBefore(info: seq<Command>, socials: seq<Social>, i: nat, from: nat := 0): (j: nat)
    requires from <= |socials|
    ensures from <= j <= |socials|
    ensures forall s :: from <= s < j ==> FirstAfter(info, socials[s].sortAs) <= i
    ensures j < |socials| ==> FirstAfter(info, socials[j].sortAs) > i
    decreases |socials| - from
  {
    if from == |socials| || FirstAfter(info, socials[from].sortAs) > i then from
    else SocialsBefore(info, socials, i, from + 1)
  }

  /** The places of the entries of cmd_info and of the socials in the combined table: the entry's own rank plus
      the number of entries of the other kind that belong before it. */
  ghost function InfoPlaces(info: seq<Command>, socials: seq<Social>): seq<nat> {
    seq(|info|, i requires 0 <= i => i + SocialsBefore(info, socials, i))
  }

  ghost function SocialPlaces(info: seq<Command>, socials: seq<Social>): seq<nat> {
    seq(|socials|, j requires 0 <= j < |socials| => j + FirstAfter(info, socials[j].sortAs))
  }

  function Entries(socials: seq<Social>): seq<Command> {
    seq(|socials|, j requires 0 <= j < |socials| => EntryOf(socials[j]))
  }

  /** Where an entry of the combined table comes from. */
  datatype Origin = FromInfo(i: nat) | FromSocial(j: nat)

  /** The first `i` commands and the first `j` socials are at their places in the table, and every place below
      i + j is taken by one of them. */
  ghost predicate Placed(table: seq<Command>, origin: seq<Origin>, info: seq<Command>, infoPlaces: seq<nat>,
                         entries: seq<Command>, places: seq<nat>, i: nat, j: nat)
  {
    && i <= |info| == |infoPlaces| && j <= |entries| == |places| && |origin| == i + j <= |table|
    && (forall c :: 0 <= c < i ==> infoPlaces[c] < i + j && table[infoPlaces[c]] == info[c])
    && (forall s :: 0 <= s < j ==> places[s] < i + j && table[places[s]] == entries[s])
    && (forall p :: 0 <= p < i + j ==>
          match origin[p]
          case FromInfo(c) => c < i && infoPlaces[c] == p
          case FromSocial(s) => s < j && places[s] == p)
  }

  /** The combined table: every command and every social is at its place, and every place is taken. */
  ghost predicate Combined(table: seq<Command>, origin: seq<Origin>, info: seq<Command>, socials: seq<Social>) {
    && |table| == |info| + |socials|
    && Placed(table, origin, info, InfoPlaces(info, socials), Entries(socials), SocialPlaces(info, socials),
              |info|, |socials|)
  }

  // ----- Sorting the socials -----

  /** The first of the least socials from place j on is at place k. */
  predicate FirstLeast(s: seq<Social>, j: nat, k: nat) {
    && j <= k < |s|
    && (forall i :: j <= i < |s| ==> Le(s[k].sortAs, s[i].sortAs))
    && (forall i :: j <= i < k ==> StrCmp(s[k].sortAs, s[i].sortAs) < 0)
  }

  function Exchanged(s: seq<Social>, j: nat, k: nat): (r: seq<Social>)
    requires j < |s| && k < |s|
    ensures |r| == |s|
  {
    s[j := s[k]][k := s[j]]
  }

  /** The socials are brought into this order by a selection sort from place j on, which takes the first of several
      least ones each time. */
  ghost predicate Selected(s: seq<Social>, j: nat, s': seq<Social>)
    decreases |s| - j
  {
    if j + 1 >= |s| then s' == s else exists k :: FirstLeast(s, j, k) && Selected(Exchanged(s, j, k), j + 1, s')
  }

  lemma OneFirstLeast(s: seq<Social>, j: nat, k: nat, m: nat)
    requires FirstLeast(s, j, k) && FirstLeast(s, j, m)
    ensures k == m
  {
    LeTotal(s[k].sortAs, s[m].sortAs);
  }

  /** There is only one such order. */
  lemma {:induction false} OneOrder(s: seq<Social>, j: nat, s1: seq<Social>, s2: seq<Social>)
    requires Selected(s, j, s1) && Selected(s, j, s2)
    ensures s1 == s2
    decreases |s| - j
  {
    if j + 1 < |s| {
      var k :| FirstLeast(s, j, k) && Selected(Exchanged(s, j, k), j + 1, s1);
      var m :| FirstLeast(s, j, m) && Selected(Exchanged(s, j, m), j + 1, s2);
      OneFirstLeast(s, j, k, m);
      OneOrder(Exchanged(s, j, k), j + 1, s1, s2);
    }
  }

  method IndexOfLeast(a: array<Social>, j: nat) returns (k: nat)
    requires j < a.Length
    ensures FirstLeast(a[..], j, k)
  {
    k := j;
    LeTotal(a[j].sortAs, a[j].sortAs);
    for i := j + 1 to a.Length
      invariant j <= k < a.Length
      invariant forall m :: j <= m < i ==> Le(a[k].sortAs, a[m].sortAs)
      invariant forall m :: j <= m < k ==> StrCmp(a[k].sortAs, a[m].sortAs) < 0
    {
      LeTotal(a[i].sortAs, a[k].sortAs);
      LeTotal(a[i].sortAs, a[i].sortAs);
      if StrCmp(a[i].sortAs, a[k].sortAs) < 0 {
        forall m | j <= m < i
          ensures StrCmp(a[i].sortAs, a[m].sortAs) < 0
        {
          LeTransitive(a[i].sortAs, a[k].sortAs, a[m].sortAs);
        }
        k := i;
      }
    }
  }

  method Swap(a: array<Social>, j: nat, k: nat)
    requires j < a.Length && k < a.Length
    modifies a
    ensures a[..] == Exchanged(old(a[..]), j, k)
  {
    var temp := a[j];
    a[j] := a[k];
    a[k] := temp;
  }

  /** The first j socials are in their places. */
  ghost predicate SortedTo(s: seq<Social>, j: nat) {
    forall i, m :: 0 <= i < m < |s| && i < j ==> Le(s[i].sortAs, s[m].sortAs)
  }

  lemma ExchangeSortsOne(s: seq<Social>, j: nat, k: nat)
    requires SortedTo(s, j) && FirstLeast(s, j, k)
    ensures SortedTo(Exchanged(s, j, k), j + 1) && multiset(Exchanged(s, j, k)) == multiset(s)
  {
    var t := Exchanged(s, j, k);
    forall i, m | 0 <= i < m < |t| && i <= j
      ensures Le(t[i].sortAs, t[m].sortAs)
    {
      assert t[m] == s[m] || t[m] == s[j] || t[m] == s[k];
    }
  }

  /** Whatever is brought into that order is sorted, and nothing is lost. */
  lemma {:induction false} SelectionSorts(s: seq<Social>, j: nat, s': seq<Social>)
    requires Selected(s, j, s') && SortedTo(s, j)
    ensures Sorted(s') && multiset(s') == multiset(s)
    decreases |s| - j
  {
    if j + 1 < |s| {
      var k :| FirstLeast(s, j, k) && Selected(Exchanged(s, j, k), j + 1, s');
      ExchangeSortsOne(s, j, k);
      SelectionSorts(Exchanged(s, j, k), j + 1, s');
    }
  }

  /** One round of the sort. */
  method SelectOne(a: array<Social>, j: nat) returns (k: nat)
    requires j + 1 < a.Length
    modifies a
    ensures FirstLeast(old(a[..]), j, k) && a[..] == Exchanged(old(a[..]), j, k)
  {
    k := IndexOfLeast(a, j);
    if j != k {
      Swap(a, j, k);
    }
  }

  /** The selection sort of the socials. */
  method SortSocials(a: array<Social>)
    modifies a
    ensures Sorted(a[..]) && multiset(a[..]) == multiset(old(a[..]))
    ensures Selected(old(a[..]), 0, a[..])
  {
    var j := 0;
    while j < a.Length - 1
      invariant 0 <= j && (j < a.Length || j == a.Length == 0)
      invariant forall s :: Selected(a[..], j, s) ==> Selected(old(a[..]), 0, s)
    {
      ghost var before := a[..];
      var k := SelectOne(a, j);
      forall s | Selected(a[..], j + 1, s)
        ensures Selected(before, j, s)
      {
        assert FirstLeast(before, j, k) && Selected(Exchanged(before, j, k), j + 1, s);
      }
      j := j + 1;
    }
    SelectionSorts(old(a[..]), 0, a[..]);
  }

  // ----- Rebuilding the table -----

  /** FirstAfter of the sorted socials never decreases. */
  lemma PlacesMonotone(info: seq<Command>, socials: seq<Social>, j: nat, k: nat)
    requires Sorted(socials) && j <= k < |socials|
    ensures FirstAfter(info, socials[j].sortAs) <= FirstAfter(info, socials[k].sortAs)
  {
    if j < k {
      FirstAfterMonotone(info, socials[j].sortAs, socials[k].sortAs);
    }
  }

  /** When the merge copies entry i with social j pending, exactly the socials before j belong before it. */
  lemma CountAtCopy(info: seq<Command>, socials: seq<Social>, i: nat, j: nat, from: nat)
    requires from <= j <= |socials|
    requires forall s :: 0 <= s < j ==> FirstAfter(info, socials[s].sortAs) <= i
    requires j < |socials| ==> FirstAfter(info, socials[j].sortAs) > i
    ensures SocialsBefore(info, socials, i, from) == j
    decreases j - from
  {
    if from < j {
      CountAtCopy(info, socials, i, j, from + 1);
    }
  }

  /** Which entry the merge takes when i commands and j socials are in the table. */
  predicate TakesCommand(info: seq<Command>, socials: seq<Social>, i: nat, j: nat)
    requires i < |info| && j <= |socials|
  {
    i < RESERVE_CMDS || j == |socials| || Le(info[i].sortAs, socials[j].sortAs)
  }

  lemma PlaceCommand(table: seq<Command>, origin: seq<Origin>, info: seq<Command>, infoPlaces: seq<nat>,
                     entries: seq<Command>, places: seq<nat>, i: nat, j: nat)
    requires Placed(table, origin, info, infoPlaces, entries, places, i, j)
    requires i < |info| && i + j < |table| && infoPlaces[i] == i + j
    ensures Placed(table[i + j := info[i]], origin + [FromInfo(i)], info, infoPlaces, entries, places, i + 1, j)
  {
  }

  lemma PlaceSocial(table: seq<Command>, origin: seq<Origin>, info: seq<Command>, infoPlaces: seq<nat>,
                    entries: seq<Command>, places: seq<nat>, i: nat, j: nat)
    requires Placed(table, origin, info, infoPlaces, entries, places, i, j)
    requires j < |entries| && i + j < |table| && places[j] == i + j
    ensures Placed(table[i + j := entries[j]], origin + [FromSocial(j)], info, infoPlaces, entries, places, i, j + 1)
  {
  }

  /** All socials before j have been passed by entry i, and social j has not. */
  ghost predicate Pending(info: seq<Command>, socials: seq<Social>, i: nat, j: nat) {
    && j <= |socials|
    && (forall s :: 0 <= s < j ==> FirstAfter(info, socials[s].sortAs) <= i)
    && (j < |socials| ==> i <= FirstAfter(info, socials[j].sortAs))
  }

  lemma TakeCommand(info: seq<Command>, socials: seq<Social>, i: nat, j: nat)
    requires i < |info| && Pending(info, socials, i, j) && TakesCommand(info, socials, i, j)
    ensures Pending(info, socials, i + 1, j) && SocialsBefore(info, socials, i) == j
  {
    CountAtCopy(info, socials, i, j, 0);
  }

  lemma NotBeyond(info: seq<Command>, name: string, i: nat)
    requires RESERVE_CMDS <= i < |info| && !Le(info[i].sortAs, name)
    ensures FirstAfter(info, name) <= i
  {
  }

  lemma TakeSocial(info: seq<Command>, socials: seq<Social>, i: nat, j: nat)
    requires i < |info| && Sorted(socials) && Pending(info, socials, i, j) && !TakesCommand(info, socials, i, j)
    ensures Pending(info, socials, i, j + 1) && FirstAfter(info, socials[j].sortAs) == i
  {
    NotBeyond(info, socials[j].sortAs, i);
    if j + 1 < |socials| {
      PlacesMonotone(info, socials, j, j + 1);
    }
  }

  /** The table as it is while the merge runs, with the numbers given to the socials placed so far. */
  ghost predicate Numbered(socials: seq<Social>, sorted: seq<Social>, places: seq<nat>, j: nat) {
    && |socials| == |sorted| == |places| && j <= |sorted|
    && forall s :: 0 <= s < |sorted| ==> socials[s] == if s < j then sorted[s].(actNr := places[s]) else sorted[s]
  }

  lemma NumberOne(socials: seq<Social>, sorted: seq<Social>, places: seq<nat>, j: nat)
    requires Numbered(socials, sorted, places, j) && j < |sorted|
    ensures socials[j] == sorted[j]
    ensures Numbered(socials[j := socials[j].(actNr := places[j])], sorted, places, j + 1)
  {
  }

  /** When the terminator would be taken while a social is pending, the socials do not fit. */
  lemma DoesNotFit(info: seq<Command>, sorted: seq<Social>, j: nat)
    requires info != [] && Sorted(sorted) && j < |sorted| && TakesCommand(info, sorted, |info| - 1, j)
    requires Pending(info, sorted, |info| - 1, j)
    ensures !Fits(info, sorted)
  {
    TakeCommand(info, sorted, |info| - 1, j);
    PlacesMonotone(info, sorted, j, |sorted| - 1);
  }

  /** The state of the merge. */
  ghost predicate Merging(info: seq<Command>, sorted: seq<Social>, table: seq<Command>, socials: seq<Social>,
                          origin: seq<Origin>, i: nat, j: nat)
  {
    && |table| > |info| + |sorted| && i <= |info|
    && Placed(table, origin, info, InfoPlaces(info, sorted), Entries(sorted), SocialPlaces(info, sorted), i, j)
    && Pending(info, sorted, i, j)
    && Numbered(socials, sorted, SocialPlaces(info, sorted), j)
  }

  lemma MergeCommand(info: seq<Command>, sorted: seq<Social>, table: seq<Command>, socials: seq<Social>,
                     origin: seq<Origin>, i: nat, j: nat)
    requires Merging(info, sorted, table, socials, origin, i, j)
    requires i < |info| && TakesCommand(info, sorted, i, j)
    ensures Merging(info, sorted, table[i + j := info[i]], socials, origin + [FromInfo(i)], i + 1, j)
  {
    TakeCommand(info, sorted, i, j);
    PlaceCommand(table, origin, info, InfoPlaces(info, sorted), Entries(sorted), SocialPlaces(info, sorted), i, j);
  }

  lemma MergeSocial(info: seq<Command>, sorted: seq<Social>, table: seq<Command>, socials: seq<Social>,
                    origin: seq<Origin>, i: nat, j: nat)
    requires Merging(info, sorted, table, socials, origin, i, j) && Sorted(sorted)
    requires i < |info| && !TakesCommand(info, sorted, i, j)
    ensures Merging(info, sorted, table[i + j := EntryOf(socials[j])], socials[j := socials[j].(actNr := i + j)],
                    origin + [FromSocial(j)], i, j + 1)
  {
    TakeSocial(info, sorted, i, j);
    PlaceSocial(table, origin, info, InfoPlaces(info, sorted), Entries(sorted), SocialPlaces(info, sorted), i, j);
    NumberOne(socials, sorted, SocialPlaces(info, sorted), j);
  }

  lemma MergeStarts(info: seq<Command>, sorted: seq<Social>, table: seq<Command>)
    requires |table| > |info| + |sorted|
    ensures Merging(info, sorted, table, sorted, [], 0, 0)
  {
  }

  lemma EndingFits(info: seq<Command>, sorted: seq<Social>)
    requires info != [] && Pending(info, sorted, |info| - 1, |sorted|)
    ensures Fits(info, sorted)
  {
  }

  lemma MergeEnds(info: seq<Command>, sorted: seq<Social>, table: seq<Command>, socials: seq<Social>,
                  origin: seq<Origin>, n: nat)
    requires Merging(info, sorted, table, socials, origin, |info|, |sorted|) && n == |info| + |sorted|
    ensures Combined(table[..n], origin, info, sorted)
    ensures Numbered(socials, sorted, SocialPlaces(info, sorted), |sorted|)
  {
    PlacedPrefix(table, origin, info, InfoPlaces(info, sorted), Entries(sorted), SocialPlaces(info, sorted), n);
  }

  method EmitCommand(info: seq<Command>, ghost sorted: seq<Social>, table: array<Command>, socials: array<Social>,
                     ghost origin: seq<Origin>, i: nat, j: nat)
    requires Merging(info, sorted, table[..], socials[..], origin, i, j)
    requires i < |info| && TakesCommand(info, sorted, i, j)
    modifies table
    ensures Merging(info, sorted, table[..], socials[..], origin + [FromInfo(i)], i + 1, j)
  {
    MergeCommand(info, sorted, table[..], socials[..], origin, i, j);
    table[i + j] := info[i];
    assert table[..] == old(table[..])[i + j := info[i]];
  }

  method EmitSocial(info: seq<Command>, ghost sorted: seq<Social>, table: array<Command>, socials: array<Social>,
                    ghost origin: seq<Origin>, i: nat, j: nat)
    requires Merging(info, sorted, table[..], socials[..], origin, i, j) && Sorted(sorted)
    requires i < |info| && !TakesCommand(info, sorted, i, j)
    modifies table, socials
    ensures Merging(info, sorted, table[..], socials[..], origin + [FromSocial(j)], i, j + 1)
  {
    MergeSocial(info, sorted, table[..], socials[..], origin, i, j);
    socials[j] := socials[j].(actNr := i + j);
    var social := socials[j];
    table[i + j] := Command(social.command, social.sortAs, social.minPosition, DoAction, social.minLevel, 0);
    assert table[..] == old(table[..])[i + j := EntryOf(old(socials[j]))];
    assert socials[..] == old(socials[..])[j := old(socials[j]).(actNr := i + j)];
  }

  /** The merge loop.  The result is false when it would read past the end of cmd_info. */
  method MergeLoop(info: seq<Command>, table: array<Command>, socials: array<Social>)
    returns (ok: bool, ghost origin: seq<Origin>)
    requires CommandInfo(info) && Sorted(socials[..]) && table.Length == |info| + socials.Length + 1
    modifies table, socials
    ensures ok ==> Merging(info, old(socials[..]), table[..], socials[..], origin, |info| - 1, socials.Length)
    ensures !ok ==> !Fits(info, old(socials[..]))
  {
    ghost var sorted := socials[..];
    origin := [];
    var i, j := 0, 0;
    MergeStarts(info, sorted, table[..]);
    while !(info[i].command != "" && info[i].command[0] == '\n') || j < socials.Length
      invariant 0 <= i < |info| && 0 <= j <= socials.Length
      invariant Merging(info, sorted, table[..], socials[..], origin, i, j)
      decreases |info| + socials.Length - i - j
    {
      SameChoice(info, sorted, socials[..], i, j);
      if TakesCommand(info, socials[..], i, j) {
        if i + 1 == |info| {
          DoesNotFit(info, sorted, j);
          return false, origin;
        }
        EmitCommand(info, sorted, table, socials, origin, i, j);
        origin := origin + [FromInfo(i)];
        i := i + 1;
      } else {
        EmitSocial(info, sorted, table, socials, origin, i, j);
        origin := origin + [FromSocial(j)];
        j := j + 1;
      }
    }
    return true, origin;
  }

  lemma SliceOfAll(a: array<Command>, n: nat)
    requires n <= a.Length
    ensures a[..][..n] == a[..n]
  {
  }

  /** Copies the terminator behind everything else. */
  method EmitTerminator(info: seq<Command>, ghost sorted: seq<Social>, table: array<Command>, socials: array<Social>,
                        ghost origin: seq<Origin>)
    returns (ghost all: seq<Origin>)
    requires info != [] && table.Length == |info| + |sorted| + 1
    requires Merging(info, sorted, table[..], socials[..], origin, |info| - 1, |sorted|)
    modifies table
    ensures Combined(table[..table.Length - 1], all, info, sorted)
    ensures Numbered(socials[..], sorted, SocialPlaces(info, sorted), |sorted|)
  {
    EmitCommand(info, sorted, table, socials, origin, |info| - 1, socials.Length);
    all := origin + [FromInfo(|info| - 1)];
    MergeEnds(info, sorted, table[..], socials[..], all, table.Length - 1);
    SliceOfAll(table, table.Length - 1);
  }

  /** Merges sorted socials into the commands, in an array of the size the source allocates, and gives every
      social its number. */
  method MergeSocials(info: seq<Command>, socials: array<Social>)
    returns (ok: bool, table: array<Command>, ghost origin: seq<Origin>)
    requires CommandInfo(info) && Sorted(socials[..])
    modifies socials
    ensures ok <==> Fits(info, old(socials[..]))
    ensures fresh(table) && table.Length == |info| + socials.Length + 1
    ensures ok ==> Combined(table[..table.Length - 1], origin, info, old(socials[..]))
    ensures ok ==> Numbered(socials[..], old(socials[..]), SocialPlaces(info, old(socials[..])), socials.Length)
  {
    ghost var sorted := socials[..];
    var count := |info|;
    table := new Command[socials.Length - 1 + count + 2];
    ok, origin := MergeLoop(info, table, socials);
    if ok {
      EndingFits(info, sorted);
      origin := EmitTerminator(info, sorted, table, socials, origin);
    }
  }

  /** Numbering the socials does not change the choices of the merge. */
  lemma SameChoice(info: seq<Command>, sorted: seq<Social>, socials: seq<Social>, i: nat, j: nat)
    requires i < |info| && j <= |sorted| && Numbered(socials, sorted, SocialPlaces(info, sorted), j)
    ensures TakesCommand(info, sorted, i, j) == TakesCommand(info, socials, i, j)
  {
  }

  lemma PlacedPrefix(table: seq<Command>, origin: seq<Origin>, info: seq<Command>, infoPlaces: seq<nat>,
                     entries: seq<Command>, places: seq<nat>, n: nat)
    requires Placed(table, origin, info, infoPlaces, entries, places, |info|, |entries|)
    requires n == |info| + |entries|
    ensures Placed(table[..n], origin, info, infoPlaces, entries, places, |info|, |entries|)
  {
  }

  /** Sorts the socials and rebuilds the combined table. */
  method CreateCommandList(info: seq<Command>, socials: array<Social>)
    returns (ok: bool, table: array<Command>, ghost origin: seq<Origin>, ghost sorted: seq<Social>)
    requires CommandInfo(info)
    modifies socials
    ensures Sorted(sorted) && multiset(sorted) == multiset(old(socials[..]))
    ensures Selected(old(socials[..]), 0, sorted)
    ensures ok <==> Fits(info, sorted)
    ensures fresh(table) && table.Length == |info| + socials.Length + 1
    ensures ok ==> Combined(table[..table.Length - 1], origin, info, sorted)
    ensures ok ==> Numbered(socials[..], sorted, SocialPlaces(info, sorted), |sorted|)
  {
    SortSocials(socials);
    sorted := socials[..];
    ok, table, origin := MergeSocials(info, socials);
  }

  /** The socials fit exactly when some entry after the reserved prefix sorts after all of them; with the
      terminator after all of them and at least RESERVE_CMDS commands they always do. */
  lemma FitsExactly(info: seq<Command>, sorted: seq<Social>)
    requires Sorted(sorted) && sorted != []
    ensures Fits(info, sorted) <==>
              exists i :: RESERVE_CMDS <= i < |info|
                          && forall s :: s in sorted ==> StrCmp(info[i].sortAs, s.sortAs) > 0
  {
    var last := sorted[|sorted| - 1];
    var k := FirstAfter(info, last.sortAs);
    if Fits(info, sorted) && RESERVE_CMDS <= k {
      forall s | s in sorted
        ensures StrCmp(info[k].sortAs, s.sortAs) > 0
      {
        var j :| 0 <= j < |sorted| && sorted[j] == s;
        LeTotal(info[k].sortAs, last.sortAs);
        LeTotal(last.sortAs, last.sortAs);
        LeTotal(info[k].sortAs, s.sortAs);
        LeTransitive(s.sortAs, last.sortAs, info[k].sortAs);
      }
    }
  }

  // ----- Finding a social by its number -----

  /** The socials carry increasing numbers. */
  ghost predicate Increasing(socials: seq<Social>) {
    forall j, k :: 0 <= j < k < |socials| ==> socials[j].actNr < socials[k].actNr
  }

  lemma NumbersIncrease(info: seq<Command>, socials: seq<Social>, sorted: seq<Social>)
    requires Sorted(sorted) && Numbered(socials, sorted, SocialPlaces(info, sorted), |sorted|)
    ensures Increasing(socials)
  {
    forall j, k | 0 <= j < k < |socials|
      ensures socials[j].actNr < socials[k].actNr
    {
      PlacesMonotone(info, sorted, j, k);
    }
  }

  /** Division of C, which rounds towards zero. */
  function Half(x: int): int {
    if x >= 0 then x / 2 else -((-x) / 2)
  }

  /** The social with the given command number, or -1. */
  method FindAction(socials: array<Social>, cmd: int) returns (r: int)
    requires Increasing(socials[..])
    ensures -1 <= r < socials.Length
    ensures r >= 0 ==> socials[r].actNr == cmd
    ensures r == -1 ==> forall j :: 0 <= j < socials.Length ==> socials[j].actNr != cmd
  {
    var bot, top := 0, socials.Length - 1;
    if top < 0 {
      return -1;
    }
    while true
      invariant 0 <= bot <= top + 1 <= socials.Length
      invariant forall j :: 0 <= j < bot ==> socials[..][j].actNr < cmd
      invariant forall j :: top < j < socials.Length ==> socials[..][j].actNr > cmd
      decreases top - bot
    {
      var mid := Half(bot + top);
      assert socials[..][mid] == socials[mid];
      if socials[mid].actNr == cmd {
        return mid;
      }
      if bot >= top {
        return -1;
      }
      if socials[mid].actNr > cmd {
        mid := mid - 1;
        top := mid;
      } else {
        mid := mid + 1;
        bot := mid;
      }
    }
  }

  /** An entry of the combined table has the number of social j exactly when it is that social. */
  lemma NumberIsPlace(table: seq<Command>, origin: seq<Origin>, info: seq<Command>, socials: seq<Social>,
                      sorted: seq<Social>, cmd: nat, j: nat)
    requires Combined(table, origin, info, sorted) && Sorted(sorted)
    requires Numbered(socials, sorted, SocialPlaces(info, sorted), |sorted|)
    requires cmd < |table| && j < |sorted|
    ensures socials[j].actNr == cmd <==> origin[cmd] == FromSocial(j)
    ensures socials[j].actNr == cmd ==> table[cmd] == EntryOf(sorted[j])
  {
    var places, infoPlaces := SocialPlaces(info, sorted), InfoPlaces(info, sorted);
    if socials[j].actNr == cmd {
      match origin[cmd]
      case FromInfo(c) => InfoIsNotSocial(info, sorted, c, j);
      case FromSocial(s) =>
        NumbersIncrease(info, socials, sorted);
    }
  }

  /** No entry of cmd_info has the place of a social, and the two are ordered as they sort. */
  lemma InfoIsNotSocial(info: seq<Command>, sorted: seq<Social>, i: nat, j: nat)
    requires Sorted(sorted) && i < |info| && j < |sorted|
    ensures var p, q := i + SocialsBefore(info, sorted, i), j + FirstAfter(info, sorted[j].sortAs);
            p != q && (p < q <==> i < FirstAfter(info, sorted[j].sortAs))
  {
    var b := SocialsBefore(info, sorted, i);
    if i < FirstAfter(info, sorted[j].sortAs) {
      assert b <= j;
    } else {
      if b <= j {
        PlacesMonotone(info, sorted, b, j);
      }
    }
  }

  ghost predicate SortedFrom(table: seq<Command>, from: nat) {
    forall p, q :: from <= p < q < |table| ==> Le(table[p].sortAs, table[q].sortAs)
  }

  /** The combined table is sorted behind the reserved prefix exactly if cmd_info is. */
  lemma CombinedIsSorted(table: seq<Command>, origin: seq<Origin>, info: seq<Command>, sorted: seq<Social>)
    requires Combined(table, origin, info, sorted) && Sorted(sorted) && |info| > RESERVE_CMDS
    ensures SortedFrom(table, RESERVE_CMDS) <==> SortedFrom(info, RESERVE_CMDS)
  {
    if SortedFrom(info, RESERVE_CMDS) {
      SortedCommandsGiveSortedTable(table, origin, info, sorted);
    }
    if SortedFrom(table, RESERVE_CMDS) {
      forall c, d | RESERVE_CMDS <= c < d < |info|
        ensures Le(info[c].sortAs, info[d].sortAs)
      {
        InfoPlacesIncrease(info, sorted, c, d);
        assert table[InfoPlaces(info, sorted)[c]] == info[c] && table[InfoPlaces(info, sorted)[d]] == info[d];
      }
    }
  }

  lemma SortedCommandsGiveSortedTable(table: seq<Command>, origin: seq<Origin>, info: seq<Command>, sorted: seq<Social>)
    requires Combined(table, origin, info, sorted) && Sorted(sorted) && SortedFrom(info, RESERVE_CMDS)
    requires |info| > RESERVE_CMDS
    ensures SortedFrom(table, RESERVE_CMDS)
  {
    forall p, q | RESERVE_CMDS <= p < q < |table|
      ensures Le(table[p].sortAs, table[q].sortAs)
    {
      OriginIsAt(table, origin, info, sorted, p);
      OriginIsAt(table, origin, info, sorted, q);
      OrderedPair(table, info, sorted, origin[p], origin[q], p, q);
    }
  }

  /** The sort keys of the first entries of the program's own cmd_info, behind the one for special procedures. */
  const FIRST_KEYS: seq<string> := ["n", "e", "s", "w", "u", "d", "northw", "nw", "northe", "ne"]

  /** That table is not sorted behind the reserved prefix, so neither is the combined one: "northe" comes after
      "ne". */
  lemma ProgramTableIsNotSorted(table: seq<Command>, origin: seq<Origin>, info: seq<Command>, sorted: seq<Social>)
    requires |info| > |FIRST_KEYS| && forall i :: 0 <= i < |FIRST_KEYS| ==> info[i + 1].sortAs == FIRST_KEYS[i]
    requires Combined(table, origin, info, sorted) && Sorted(sorted)
    ensures !SortedFrom(info, RESERVE_CMDS) && !SortedFrom(table, RESERVE_CMDS)
  {
    assert info[9].sortAs == FIRST_KEYS[8] && info[10].sortAs == FIRST_KEYS[9];
    NorthEastAfterNe();
    CombinedIsSorted(table, origin, info, sorted);
  }

  lemma NorthEastAfterNe()
    ensures !Le("northe", "ne")
  {
    assert Tail("northe") == "orthe" && Tail("ne") == "e";
  }

  lemma InfoPlacesIncrease(info: seq<Command>, sorted: seq<Social>, c: nat, d: nat)
    requires Sorted(sorted) && c < d < |info|
    ensures c + SocialsBefore(info, sorted, c) < d + SocialsBefore(info, sorted, d)
  {
  }

  lemma CommandAfterPrefix(info: seq<Command>, sorted: seq<Social>, c: nat)
    requires c < |info| && c + SocialsBefore(info, sorted, c) >= RESERVE_CMDS
    ensures c >= RESERVE_CMDS || |info| <= RESERVE_CMDS
  {
  }

  lemma CommandThenCommand(info: seq<Command>, sorted: seq<Social>, c: nat, d: nat)
    requires Sorted(sorted) && SortedFrom(info, RESERVE_CMDS) && c < |info| && d < |info|
    requires RESERVE_CMDS <= c + SocialsBefore(info, sorted, c) < d + SocialsBefore(info, sorted, d)
    requires |info| > RESERVE_CMDS
    ensures Le(info[c].sortAs, info[d].sortAs)
  {
    CommandAfterPrefix(info, sorted, c);
    if d < c {
      InfoPlacesIncrease(info, sorted, d, c);
    }
  }

  lemma CommandThenSocial(info: seq<Command>, sorted: seq<Social>, c: nat, s: nat)
    requires Sorted(sorted) && s < |sorted| && c < |info| && |info| > RESERVE_CMDS
    requires RESERVE_CMDS <= c + SocialsBefore(info, sorted, c) < s + FirstAfter(info, sorted[s].sortAs)
    ensures Le(info[c].sortAs, sorted[s].sortAs)
  {
    CommandAfterPrefix(info, sorted, c);
    InfoIsNotSocial(info, sorted, c, s);
  }

  lemma SocialThenCommand(info: seq<Command>, sorted: seq<Social>, s: nat, c: nat)
    requires Sorted(sorted) && SortedFrom(info, RESERVE_CMDS) && s < |sorted| && c < |info|
    requires s + FirstAfter(info, sorted[s].sortAs) < c + SocialsBefore(info, sorted, c)
    ensures Le(sorted[s].sortAs, info[c].sortAs)
  {
    InfoIsNotSocial(info, sorted, c, s);
    var k := FirstAfter(info, sorted[s].sortAs);
    if RESERVE_CMDS <= k {
      LeTotal(info[k].sortAs, sorted[s].sortAs);
      if k < c {
        LeTransitive(sorted[s].sortAs, info[k].sortAs, info[c].sortAs);
      }
    }
  }

  lemma SocialThenSocial(info: seq<Command>, sorted: seq<Social>, s: nat, r: nat)
    requires Sorted(sorted) && s < |sorted| && r < |sorted|
    requires s + FirstAfter(info, sorted[s].sortAs) < r + FirstAfter(info, sorted[r].sortAs)
    ensures Le(sorted[s].sortAs, sorted[r].sortAs)
  {
    if r < s {
      PlacesMonotone(info, sorted, r, s);
    }
  }

  /** The sort key and the place of an entry, by where it comes from. */
  ghost predicate IsAt(table: seq<Command>, info: seq<Command>, sorted: seq<Social>, o: Origin, p: nat)
    requires p < |table|
  {
    match o
    case FromInfo(c) => c < |info| && table[p] == info[c] && p == c + SocialsBefore(info, sorted, c)
    case FromSocial(s) =>
      s < |sorted| && table[p] == EntryOf(sorted[s]) && p == s + FirstAfter(info, sorted[s].sortAs)
  }

  lemma OriginIsAt(table: seq<Command>, origin: seq<Origin>, info: seq<Command>, sorted: seq<Social>, p: nat)
    requires Combined(table, origin, info, sorted) && p < |table|
    ensures IsAt(table, info, sorted, origin[p], p)
  {
  }

  lemma OrderedPair(table: seq<Command>, info: seq<Command>, sorted: seq<Social>, o: Origin, o': Origin, p: nat, q: nat)
    requires Sorted(sorted) && SortedFrom(info, RESERVE_CMDS) && |info| > RESERVE_CMDS
    requires RESERVE_CMDS <= p < q < |table| && IsAt(table, info, sorted, o, p) && IsAt(table, info, sorted, o', q)
    ensures Le(table[p].sortAs, table[q].sortAs)
  {
    match (o, o')
    case (FromInfo(c), FromInfo(d)) => CommandThenCommand(info, sorted, c, d);
    case (FromInfo(c), FromSocial(s)) => CommandThenSocial(info, sorted, c, s);
    case (FromSocial(s), FromInfo(c)) => SocialThenCommand(info, sorted, s, c);
    case (FromSocial(s), FromSocial(r)) => SocialThenSocial(info, sorted, s, r);
  }
}
