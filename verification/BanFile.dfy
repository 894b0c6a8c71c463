/** Banned sites (src/ban.c): the list, the commands that change it, and the file it is written to and loaded
    from.  The writer recurses from the end of the list, the loader prepends what it reads. */
module BanFile {
  import opened Wrappers

  const BAN_NOT := 0
  const BAN_NEW := 1
  const BAN_SELECT := 2
  const BAN_ALL := 3
  const BANNED_SITE_LENGTH := 50
  const MAX_NAME_LENGTH := 20

  const BAN_TYPES: seq<string> := ["no", "new", "select", "all", "ERROR"]

  datatype Ban = Ban(site: string, kind: int, date: int, name: string)

  // ----- Characters -----

  predicate IsSpace(c: char) {
    c == ' ' || 9 <= c as int <= 13
  }

  predicate IsDigit(c: char) {
    '0' <= c <= '9'
  }

  /** A token: not empty and without white space. */
  predicate IsWord(s: string) {
    s != "" && forall i :: 0 <= i < |s| ==> !IsSpace(s[i])
  }

  function Take(s: string, n: nat): string {
    if |s| <= n then s else s[..n]
  }

  // ----- Writing -----

  function DigitChar(d: nat): char
    requires d < 10
  {
    ('0' as int + d) as char
  }

  function Digits(n: nat): (s: string)
    ensures s != "" && forall i :: 0 <= i < |s| ==> IsDigit(s[i])
  {
    if n < 10 then [DigitChar(n)] else Digits(n / 10) + [DigitChar(n % 10)]
  }

  /** The decimal form of a number. */
  function Decimal(n: int): string {
    if n < 0 then "-" + Digits(-n) else Digits(n)
  }

  function Line(b: Ban): string
    requires 0 <= b.kind < |BAN_TYPES|
  {
    BAN_TYPES[b.kind] + (" " + (b.site + (" " + (Decimal(b.date) + (" " + (b.name + "\n"))))))
  }

  /** The text of the file: the last ban of the list comes first. */
  function Written(list: seq<Ban>): string
    requires forall i :: 0 <= i < |list| ==> 0 <= list[i].kind < |BAN_TYPES|
  {
    if list == [] then "" else Written(list[1..]) + Line(list[0])
  }

  lemma WrittenFrom(list: seq<Ban>, before: string, i: nat)
    requires i < |list| && forall k :: 0 <= k < |list| ==> 0 <= list[k].kind < |BAN_TYPES|
    ensures (before + Written(list[i + 1..])) + Line(list[i]) == before + Written(list[i..])
  {
    assert list[i..][1..] == list[i + 1..];
    Assoc(before, Written(list[i + 1..]), Line(list[i]));
  }

  // ----- Reading, as fscanf does it -----

  function SkipSpace(s: string): (r: string)
    ensures |r| <= |s| && (r != "" ==> !IsSpace(r[0]))
  {
    if s != "" && IsSpace(s[0]) then SkipSpace(s[1..]) else s
  }

  /** The length of the longest prefix without white space. */
  function WordLength(s: string): (n: nat)
    ensures n <= |s|
  {
    if s == "" || IsSpace(s[0]) then 0 else 1 + WordLength(s[1..])
  }

  function DigitsLength(s: string): (n: nat)
    ensures n <= |s| && forall i :: 0 <= i < n ==> IsDigit(s[i])
  {
    if s == "" || !IsDigit(s[0]) then 0 else 1 + DigitsLength(s[1..])
  }

  datatype Scanned<T> = Scanned(value: T, rest: string)

  /** The %s conversion. */
  function ScanWord(s: string): (r: Option<Scanned<string>>)
    ensures r.Some? ==> |r.value.rest| < |s|
  {
    var t := SkipSpace(s);
    var n := WordLength(t);
    if n == 0 then None else Some(Scanned(t[..n], t[n..]))
  }

  function Value(digits: string): int
    requires forall i :: 0 <= i < |digits| ==> IsDigit(digits[i])
  {
    if digits == "" then 0
    else 10 * Value(digits[..|digits| - 1]) + (digits[|digits| - 1] as int - '0' as int)
  }

  /** A number too large for an int loses its upper bits. */
  function ToInt(n: int): (r: int)
    ensures -0x8000_0000 <= r < 0x8000_0000
    ensures r == n <==> -0x8000_0000 <= n < 0x8000_0000
  {
    (n + 0x8000_0000) % 0x1_0000_0000 - 0x8000_0000
  }

  function ScanDigits(s: string, negative: bool): (r: Option<Scanned<int>>)
    ensures r.Some? ==> |r.value.rest| < |s|
  {
    var n := DigitsLength(s);
    if n == 0 then None else Some(Scanned(ToInt(if negative then -Value(s[..n]) else Value(s[..n])), s[n..]))
  }

  /** The %d conversion. */
  function ScanInt(s: string): (r: Option<Scanned<int>>)
    ensures r.Some? ==> |r.value.rest| < |s|
  {
    ScanSigned(SkipSpace(s))
  }

  function ScanSigned(t: string): (r: Option<Scanned<int>>)
    ensures r.Some? ==> |r.value.rest| < |t|
  {
    if t != "" && (t[0] == '-' || t[0] == '+') then ScanDigits(t[1..], t[0] == '-') else ScanDigits(t, false)
  }

  /** The type whose name was read; an unknown name leaves the zero the node was created with. */
  function KindOf(word: string): int {
    if word == BAN_TYPES[BAN_ALL] then BAN_ALL
    else if word == BAN_TYPES[BAN_SELECT] then BAN_SELECT
    else if word == BAN_TYPES[BAN_NEW] then BAN_NEW
    else BAN_NOT
  }

  /** One round of the loader. */
  function ScanBan(s: string): (r: Option<Scanned<Ban>>)
    ensures r.Some? ==> |r.value.rest| < |s|
  {
    match ScanWord(s)
    case None => None
    case Some(kind) =>
      match ScanWord(kind.rest)
      case None => None
      case Some(site) =>
        match ScanInt(site.rest)
        case None => None
        case Some(date) =>
          match ScanWord(date.rest)
          case None => None
          case Some(name) =>
            Some(Scanned(Ban(Take(site.value, BANNED_SITE_LENGTH), KindOf(kind.value), date.value,
                             Take(name.value, MAX_NAME_LENGTH)),
                         SkipSpace(name.rest)))
  }

  /** What the loader makes of a text, starting with a given list. */
  function Loaded(s: string, list: seq<Ban>): seq<Ban>
    decreases |s|
  {
    match ScanBan(s)
    case None => list
    case Some(b) => Loaded(b.rest, [b.value] + list)
  }

  // ----- Round trip -----

  /** A ban whose texts fit their buffers and survive as tokens. */
  predicate WellFormed(b: Ban) {
    && BAN_NOT <= b.kind <= BAN_ALL
    && IsWord(b.site) && |b.site| <= BANNED_SITE_LENGTH
    && IsWord(b.name) && |b.name| <= MAX_NAME_LENGTH
  }

  predicate AllWellFormed(list: seq<Ban>) {
    forall i :: 0 <= i < |list| ==> WellFormed(list[i])
  }

  predicate FitsInt(n: int) {
    -0x8000_0000 <= n < 0x8000_0000
  }

  function Cut(b: Ban): Ban {
    b.(date := ToInt(b.date))
  }

  function AllCut(list: seq<Ban>): seq<Ban> {
    seq(|list|, i requires 0 <= i < |list| => Cut(list[i]))
  }

  lemma {:induction false} WordStops(w: string, rest: string)
    requires (forall i :: 0 <= i < |w| ==> !IsSpace(w[i])) && rest != "" && IsSpace(rest[0])
    ensures WordLength(w + rest) == |w|
  {
    if w == "" {
      assert w + rest == rest;
    } else {
      assert (w + rest)[1..] == w[1..] + rest;
      WordStops(w[1..], rest);
    }
  }

  /** Reading a token that a blank precedes and white space ends. */
  lemma ScanWordReads(pre: string, w: string, rest: string)
    requires pre == "" || pre == " "
    requires IsWord(w) && rest != "" && IsSpace(rest[0])
    ensures ScanWord(pre + (w + rest)) == Some(Scanned(w, rest))
  {
    var t := w + rest;
    assert t[0] == w[0] && SkipSpace(t) == t;
    if pre == " " {
      assert (pre + t)[1..] == t;
    } else {
      assert pre + t == t;
    }
    WordStops(w, rest);
    assert t[..|w|] == w && t[|w|..] == rest;
  }

  lemma {:induction false} DigitsStop(d: string, rest: string)
    requires (forall i :: 0 <= i < |d| ==> IsDigit(d[i])) && rest != "" && !IsDigit(rest[0])
    ensures DigitsLength(d + rest) == |d|
  {
    if d == "" {
      assert d + rest == rest;
    } else {
      assert (d + rest)[1..] == d[1..] + rest;
      DigitsStop(d[1..], rest);
    }
  }

  lemma {:induction false} ValueOfDigits(n: nat)
    ensures Value(Digits(n)) == n
  {
    if n < 10 {
      assert Digits(n)[..0] == "";
    } else {
      ValueOfDigits(n / 10);
      assert Digits(n)[..|Digits(n)| - 1] == Digits(n / 10);
    }
  }

  lemma ScanDigitsReads(n: nat, negative: bool, rest: string)
    requires rest != "" && IsSpace(rest[0])
    ensures ScanDigits(Digits(n) + rest, negative) == Some(Scanned(ToInt(if negative then 0 - n else n), rest))
  {
    var d := Digits(n);
    DigitsStop(d, rest);
    assert (d + rest)[..|d|] == d && (d + rest)[|d|..] == rest;
    ValueOfDigits(n);
  }

  lemma ScanSignedReads(n: int, rest: string)
    requires rest != "" && IsSpace(rest[0])
    ensures ScanSigned(Decimal(n) + rest) == Some(Scanned(ToInt(n), rest))
  {
    if n < 0 {
      ScanDigitsReads(-n, true, rest);
      MinusFirst(Digits(-n), rest);
    } else {
      ScanDigitsReads(n, false, rest);
      assert (Decimal(n) + rest)[0] == Digits(n)[0];
    }
  }

  lemma MinusFirst(d: string, rest: string)
    ensures (("-" + d) + rest)[0] == '-' && (("-" + d) + rest)[1..] == d + rest
  {
  }

  lemma SkipOne(t: string)
    requires t != "" && !IsSpace(t[0])
    ensures SkipSpace(" " + t) == t
  {
    assert (" " + t)[1..] == t;
  }

  lemma DecimalIsWord(n: int)
    ensures Decimal(n) != "" && !IsSpace(Decimal(n)[0])
  {
  }

  /** Reading a printed number gives its int value. */
  lemma ScanIntReads(n: int, rest: string)
    requires rest != "" && IsSpace(rest[0])
    ensures ScanInt(" " + (Decimal(n) + rest)) == Some(Scanned(ToInt(n), rest))
  {
    DecimalIsWord(n);
    assert (Decimal(n) + rest)[0] == Decimal(n)[0];
    SkipOne(Decimal(n) + rest);
    ScanSignedReads(n, rest);
  }

  lemma Assoc<T>(a: seq<T>, b: seq<T>, c: seq<T>)
    ensures (a + b) + c == a + (b + c)
  {
  }

  lemma LineThen(b: Ban, rest: string, afterName: string, afterDate: string, afterSite: string, afterKind: string)
    requires WellFormed(b) && afterName == "\n" + rest && afterDate == " " + (b.name + afterName)
    requires afterSite == " " + (Decimal(b.date) + afterDate) && afterKind == " " + (b.site + afterSite)
    ensures Line(b) + rest == BAN_TYPES[b.kind] + afterKind
  {
    var l1 := b.name + "\n";
    var l2 := Decimal(b.date) + (" " + l1);
    var l3 := b.site + (" " + l2);
    Assoc(b.name, "\n", rest);
    Assoc(" ", l1, rest);
    Assoc(Decimal(b.date), " " + l1, rest);
    Assoc(" ", l2, rest);
    Assoc(b.site, " " + l2, rest);
    Assoc(" ", l3, rest);
    Assoc(BAN_TYPES[b.kind], " " + l3, rest);
  }

  /** Reading a written line gives the ban, with its date cut to an int. */
  lemma ScanBanReads(b: Ban, rest: string)
    requires WellFormed(b)
    ensures ScanBan(Line(b) + rest) == Some(Scanned(Cut(b), SkipSpace(rest)))
  {
    var afterName := "\n" + rest;
    var afterDate := " " + (b.name + afterName);
    var afterSite := " " + (Decimal(b.date) + afterDate);
    var afterKind := " " + (b.site + afterSite);
    LineThen(b, rest, afterName, afterDate, afterSite, afterKind);
    assert "" + (BAN_TYPES[b.kind] + afterKind) == BAN_TYPES[b.kind] + afterKind;
    ScanWordReads("", BAN_TYPES[b.kind], afterKind);
    ScanWordReads(" ", b.site, afterSite);
    ScanIntReads(b.date, afterDate);
    ScanWordReads(" ", b.name, afterName);
    assert afterName[1..] == rest;
  }

  lemma LoadedSkips(s: string, list: seq<Ban>)
    ensures Loaded(SkipSpace(s), list) == Loaded(s, list)
  {
    assert SkipSpace(SkipSpace(s)) == SkipSpace(s);
    assert ScanWord(SkipSpace(s)) == ScanWord(s);
  }

  lemma LoadedStep(s: string, b: Ban, rest: string, acc: seq<Ban>)
    requires ScanBan(s) == Some(Scanned(b, rest))
    ensures Loaded(s, acc) == Loaded(rest, [b] + acc)
  {
  }

  lemma {:induction false} LoadedWritten(list: seq<Ban>, rest: string, acc: seq<Ban>)
    requires AllWellFormed(list)
    ensures Loaded(Written(list) + rest, acc) == Loaded(rest, AllCut(list) + acc)
  {
    if list == [] {
      assert Written(list) + rest == rest && AllCut(list) + acc == acc;
    } else {
      var line, acc' := Line(list[0]) + rest, AllCut(list[1..]) + acc;
      LoadedWritten(list[1..], line, acc);
      ScanBanReads(list[0], rest);
      LoadedStep(line, Cut(list[0]), SkipSpace(rest), acc');
      LoadedSkips(rest, [Cut(list[0])] + acc');
      Regroup(list, rest, acc);
    }
  }

  lemma Regroup(list: seq<Ban>, rest: string, acc: seq<Ban>)
    requires AllWellFormed(list) && list != []
    ensures Written(list) + rest == Written(list[1..]) + (Line(list[0]) + rest)
    ensures [Cut(list[0])] + (AllCut(list[1..]) + acc) == AllCut(list) + acc
  {
    assert AllCut(list) == [Cut(list[0])] + AllCut(list[1..]);
    Assoc([Cut(list[0])], AllCut(list[1..]), acc);
    Assoc(Written(list[1..]), Line(list[0]), rest);
  }

  /** The round trip: loading what was written gives the same list in the same order if and only if every date
      fits an int; a date that does not loses its upper bits and nothing else changes. */
  lemma RoundTrip(list: seq<Ban>)
    requires AllWellFormed(list)
    ensures Loaded(Written(list), []) == AllCut(list)
    ensures Loaded(Written(list), []) == list <==> forall b :: b in list ==> FitsInt(b.date)
  {
    LoadedWritten(list, "", []);
    assert Written(list) + "" == Written(list) && AllCut(list) + [] == AllCut(list);
    if AllCut(list) == list {
      forall b | b in list
        ensures FitsInt(b.date)
      {
        var i :| 0 <= i < |list| && list[i] == b;
        assert AllCut(list)[i] == Cut(b);
      }
    }
  }

  lemma {:induction false} WordHasNoSpace(s: string)
    ensures forall i :: 0 <= i < WordLength(s) ==> !IsSpace(s[i])
  {
    if s != "" && !IsSpace(s[0]) {
      WordHasNoSpace(s[1..]);
      assert forall i :: 1 <= i < WordLength(s) ==> s[i] == s[1..][i - 1];
    }
  }

  lemma ScannedWordIsWord(s: string)
    requires ScanWord(s).Some?
    ensures IsWord(ScanWord(s).value.value)
  {
    WordHasNoSpace(SkipSpace(s));
  }

  lemma TakenWordIsWord(w: string, n: nat)
    requires IsWord(w) && n > 0
    ensures IsWord(Take(w, n)) && |Take(w, n)| <= n
  {
  }

  /** Whatever the text is, a ban that is read has one of the four types, and words of the lengths of its fields. */
  lemma ScannedIsWellFormed(s: string)
    requires ScanBan(s).Some?
    ensures WellFormed(ScanBan(s).value.value) && FitsInt(ScanBan(s).value.value.date)
  {
    var kind := ScanWord(s).value;
    var site := ScanWord(kind.rest).value;
    var date := ScanInt(site.rest).value;
    ScannedWordIsWord(kind.rest);
    ScannedWordIsWord(date.rest);
    TakenWordIsWord(site.value, BANNED_SITE_LENGTH);
    TakenWordIsWord(ScanWord(date.rest).value.value, MAX_NAME_LENGTH);
  }

  lemma {:induction false} LoadedIsWellFormed(s: string, list: seq<Ban>)
    requires AllWellFormed(list) && forall b :: b in list ==> FitsInt(b.date)
    ensures AllWellFormed(Loaded(s, list)) && forall b :: b in Loaded(s, list) ==> FitsInt(b.date)
    decreases |s|
  {
    if ScanBan(s).Some? {
      ScannedIsWellFormed(s);
      LoadedIsWellFormed(ScanBan(s).value.rest, [ScanBan(s).value.value] + list);
    }
  }

  /** Whatever is in the file, writing back what was loaded from it and loading that again changes nothing. */
  lemma RewritingIsStable(s: string)
    ensures AllWellFormed(Loaded(s, [])) && Loaded(Written(Loaded(s, [])), []) == Loaded(s, [])
  {
    LoadedIsWellFormed(s, []);
    RoundTrip(Loaded(s, []));
  }

  // ----- The commands -----

  predicate HasSite(list: seq<Ban>, site: string) {
    exists i :: 0 <= i < |list| && Lower(list[i].site) == Lower(site)
  }

  /** No site is banned twice. */
  ghost predicate UniqueSites(list: seq<Ban>) {
    forall i, j :: 0 <= i < j < |list| ==> Lower(list[i].site) != Lower(list[j].site)
  }

  /** The site of a new ban: cut to one character less than the buffer holds, in lower case. */
  function StoredSite(site: string): string {
    Lower(Take(site, BANNED_SITE_LENGTH - 1))
  }

  lemma StoredSiteIsWord(site: string)
    requires IsWord(site)
    ensures IsWord(StoredSite(site)) && |StoredSite(site)| < BANNED_SITE_LENGTH
    ensures Lower(StoredSite(site)) == Lower(Take(site, BANNED_SITE_LENGTH - 1))
  {
    LowerTwice(Take(site, BANNED_SITE_LENGTH - 1));
  }

  /** Adding a ban keeps the sites unique exactly when no ban has the site that is stored.  The command looks for
      the site that was typed, which is the same one only up to 49 characters. */
  lemma UniqueAfterBan(list: seq<Ban>, b: Ban, site: string)
    requires UniqueSites(list) && b.site == StoredSite(site) && IsWord(site)
    ensures UniqueSites([b] + list) <==> !HasSite(list, Take(site, BANNED_SITE_LENGTH - 1))
    ensures |site| < BANNED_SITE_LENGTH && !HasSite(list, site) ==> UniqueSites([b] + list)
  {
    StoredSiteIsWord(site);
    var all := [b] + list;
    if HasSite(list, Take(site, BANNED_SITE_LENGTH - 1)) {
      var i :| 0 <= i < |list| && Lower(list[i].site) == Lower(Take(site, BANNED_SITE_LENGTH - 1));
      assert all[i + 1] == list[i] && all[0] == b;
    }
  }

  /** A site longer than what is stored of it can be banned twice: the first ban does not hold the site that is typed
      again, but does hold what is stored. */
  lemma LongSiteIsBannedTwice(site: string, first: Ban, second: Ban)
    requires IsWord(site) && |site| >= BANNED_SITE_LENGTH && first.site == second.site == StoredSite(site)
    ensures UniqueSites([first]) && !HasSite([first], site) && !UniqueSites([second] + [first])
  {
    StoredSiteIsWord(site);
    assert |Lower(first.site)| == BANNED_SITE_LENGTH - 1 && |Lower(site)| >= BANNED_SITE_LENGTH;
    var both := [second] + [first];
    assert both[0] == second && both[1] == first;
  }

  /** Lifting the first ban of a site, which is at place i. */
  ghost predicate Unbans(list: seq<Ban>, site: string, i: int, after: seq<Ban>) {
    && 0 <= i < |list| && Lower(list[i].site) == Lower(site) && !HasSite(list[..i], site)
    && after == list[..i] + list[i + 1..]
  }

  /** The site name occurs in the host name. */
  predicate Occurs(site: string, host: string) {
    exists i :: 0 <= i <= |host| && site <= host[i..]
  }

  /** The host name is something, the site, and something. */
  lemma OccursAnywhere(site: string, host: string)
    ensures Occurs(site, host) <==> exists pre: string, post: string :: host == pre + (site + post)
  {
    if Occurs(site, host) {
      var i :| 0 <= i <= |host| && site <= host[i..];
      assert host == host[..i] + (site + host[i..][|site|..]);
    }
    if exists pre: string, post: string :: host == pre + (site + post) {
      var pre: string, post: string :| host == pre + (site + post);
      assert host[|pre|..] == site + post;
    }
  }

  /** What is stored of a site occurs in every host name that contains it, whatever the case of either. */
  lemma StoredSiteOccurs(site: string, pre: string, typed: string, post: string)
    requires Lower(typed) == Lower(Take(site, BANNED_SITE_LENGTH - 1))
    ensures Occurs(StoredSite(site), Lower(pre + (typed + post)))
  {
    assert Lower(pre + (typed + post)) == Lower(pre) + (StoredSite(site) + Lower(post));
    OccursAnywhere(StoredSite(site), Lower(pre + (typed + post)));
  }

  /** The answer does not depend on the case of the host name. */
  method SameInAnyCase(bans: BanList, host: string, other: string) returns (r: int, s: int)
    requires AllWellFormed(bans.list) && |host| == |other|
    requires forall i :: 0 <= i < |host| ==> SameLetter(host[i], other[i])
    ensures r == s
  {
    SameName(host, other);
    r := bans.IsBanned(host);
    s := bans.IsBanned(other);
  }

  /** Once a site has been banned, so are all host names that contain it, in whatever case either was typed. */
  method BanAndCheck(bans: BanList, flag: string, site: string, who: string, now: int, canOpen: bool, pre: string,
                     typed: string, post: string)
    returns (banned: bool, r: int)
    requires AllWellFormed(bans.list) && IsWord(who) && IsWord(site)
    requires Lower(typed) == Lower(Take(site, BANNED_SITE_LENGTH - 1))
    modifies bans
    ensures banned && Lower(flag) == "all" ==> r == BAN_ALL
    ensures banned && Lower(flag) == "select" ==> r in {BAN_SELECT, BAN_ALL}
    ensures banned && Lower(flag) == "new" ==> r in {BAN_NEW, BAN_SELECT, BAN_ALL}
  {
    banned := bans.DoBan(flag, site, who, now, canOpen);
    r := bans.IsBanned(pre + (typed + post));
    StoredSiteOccurs(site, pre, typed, post);
    if banned {
      assert bans.list[0] in bans.list;
    }
  }

  class BanList {
    var list: seq<Ban>
    var file: string

    /** Loads the list, if the file can be opened. */
    method Load(canOpen: bool)
      modifies `list
      ensures list == (if canOpen then Loaded(file, []) else []) && AllWellFormed(list)
    {
      LoadedIsWellFormed(file, []);
      list := [];
      if !canOpen {
        return;
      }
      var rest := file;
      while ScanBan(rest).Some?
        invariant Loaded(rest, list) == Loaded(file, [])
        decreases |rest|
      {
        var b := ScanBan(rest).value;
        list := [b.value] + list;
        rest := b.rest;
      }
    }

    method Print(text: string)
      modifies `file
      ensures file == old(file) + text
    {
      file := file + text;
    }

    /** Writes the list from the given ban on: first what comes behind it, then the ban itself. */
    method WriteOneNode(i: nat)
      requires i <= |list| && AllWellFormed(list)
      modifies `file
      ensures file == old(file) + Written(list[i..])
      decreases |list| - i
    {
      if i < |list| {
        WriteOneNode(i + 1);
        WrittenFrom(list, old(file), i);
        Print(Line(list[i]));
      }
    }

    method Write(canOpen: bool)
      requires AllWellFormed(list)
      modifies `file
      ensures file == if canOpen then Written(list) else old(file)
    {
      if !canOpen {
        return;
      }
      file := "";
      WriteOneNode(0);
      assert list[0..] == list && "" + Written(list) == Written(list);
    }

    /** Bans a site.  When the file can be written, loading it afterwards gives the list of the server back, as long
        as all dates fit an int. */
    method DoBan(flag: string, site: string, who: string, now: int, canOpen: bool) returns (banned: bool)
      requires AllWellFormed(list) && IsWord(who) && (site != "" ==> IsWord(site))
      modifies this
      ensures AllWellFormed(list)
      ensures banned <==> site != "" && Lower(flag) in {"select", "all", "new"} && !HasSite(old(list), site)
      ensures !banned ==> list == old(list) && file == old(file)
      ensures banned ==>
                list == [Ban(StoredSite(site), KindOf(Lower(flag)), now, Take(who, MAX_NAME_LENGTH))] + old(list)
      ensures banned && canOpen ==> (Loaded(file, []) == list <==> forall b :: b in list ==> FitsInt(b.date))
      ensures banned && UniqueSites(old(list)) ==>
                (UniqueSites(list) <==> !HasSite(old(list), Take(site, BANNED_SITE_LENGTH - 1)))
    {
      if site == "" || flag == "" {
        return false;
      }
      if Lower(flag) !in {"select", "all", "new"} {
        return false;
      }
      for i := 0 to |list|
        invariant forall k :: 0 <= k < i ==> Lower(list[k].site) != Lower(site)
      {
        if Lower(list[i].site) == Lower(site) {
          return false;
        }
      }
      StoredSiteIsWord(site);
      ghost var b := Ban(StoredSite(site), KindOf(Lower(flag)), now, Take(who, MAX_NAME_LENGTH));
      if UniqueSites(list) {
        UniqueAfterBan(list, b, site);
      }
      list := [Ban(StoredSite(site), KindOf(Lower(flag)), now, Take(who, MAX_NAME_LENGTH))] + list;
      Write(canOpen);
      RoundTrip(list);
      return true;
    }

    /** Lifts the first ban of a site. */
    method DoUnban(site: string, canOpen: bool) returns (found: bool)
      requires AllWellFormed(list)
      modifies this
      ensures AllWellFormed(list)
      ensures found <==> site != "" && HasSite(old(list), site)
      ensures !found ==> list == old(list) && file == old(file)
      ensures found ==> exists i :: Unbans(old(list), site, i, list)
      ensures found && UniqueSites(old(list)) ==> !HasSite(list, site)
      ensures found && canOpen ==> (Loaded(file, []) == list <==> forall b :: b in list ==> FitsInt(b.date))
    {
      if site == "" {
        return false;
      }
      var i := 0;
      while i < |list| && Lower(list[i].site) != Lower(site)
        invariant i <= |list| && forall k :: 0 <= k < i ==> Lower(list[k].site) != Lower(site)
      {
        i := i + 1;
      }
      if i == |list| {
        return false;
      }
      ghost var was := list;
      list := list[..i] + list[i + 1..];
      assert Unbans(was, site, i, list);
      Write(canOpen);
      RoundTrip(list);
      return true;
    }

    /** The strictest ban whose site occurs in the host name. */
    method IsBanned(hostname: string) returns (r: int)
      requires AllWellFormed(list)
      ensures hostname == "" ==> r == 0
      ensures hostname != "" ==> forall b :: b in list && Occurs(b.site, Lower(hostname)) ==> b.kind <= r
      ensures r == 0 || exists b :: b in list && Occurs(b.site, Lower(hostname)) && b.kind == r
    {
      if hostname == "" {
        return 0;
      }
      r := 0;
      for i := 0 to |list|
        invariant r >= 0 && forall k :: 0 <= k < i && Occurs(list[k].site, Lower(hostname)) ==> list[k].kind <= r
        invariant r == 0 || exists b :: b in list && Occurs(b.site, Lower(hostname)) && b.kind == r
      {
        if Occurs(list[i].site, Lower(hostname)) {
          r := if r >= list[i].kind then r else list[i].kind;
        }
      }
    }
  }
}
