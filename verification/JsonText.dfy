/** Text in JSON strings (src/ai_service.c): escaping into a bounded buffer, and the two parsers that take the
    text out of a response again.  Strings hold no NUL. */
module JsonText {
  import opened Wrappers

  const QUOTE := '\"'
  const BACKSLASH := '\\'
  const BACKSPACE := 8 as char
  const FORM_FEED := 12 as char

  // ----- Escaping -----

  /** What one character becomes inside a JSON string; other control characters and non-ASCII are dropped. */
  function Esc(c: char): (e: string)
    ensures |e| <= 2
  {
    if c == QUOTE then [BACKSLASH, QUOTE]
    else if c == BACKSLASH then [BACKSLASH, BACKSLASH]
    else if c == BACKSPACE then [BACKSLASH, 'b']
    else if c == FORM_FEED then [BACKSLASH, 'f']
    else if c == '\n' then [BACKSLASH, 'n']
    else if c == '\r' then [BACKSLASH, 'r']
    else if c == '\t' then [BACKSLASH, 't']
    else if c as int < 0x20 || c as int >= 0x80 then []
    else [c]
  }

  function Escaped(s: string): string {
    if s == "" then "" else Esc(s[0]) + Escaped(s[1..])
  }

  lemma {:induction false} EscapedAppend(s: string, t: string)
    ensures Escaped(s + t) == Escaped(s) + Escaped(t)
  {
    if s == "" {
      assert s + t == t;
    } else {
      assert (s + t)[1..] == s[1..] + t;
      EscapedAppend(s[1..], t);
    }
  }

  lemma EscapedSnoc(src: string, k: nat)
    requires k < |src|
    ensures Escaped(src[..k + 1]) == Escaped(src[..k]) + Esc(src[k])
  {
    assert src[..k + 1] == src[..k] + [src[k]];
    EscapedAppend(src[..k], [src[k]]);
    assert Escaped([src[k]]) == Esc(src[k]) + "";
  }

  lemma EscapedPrefix(src: string, j: nat, k: nat)
    requires j <= k <= |src|
    ensures |Escaped(src[..j])| <= |Escaped(src[..k])|
    ensures |Escaped(src[..j])| == |Escaped(src[..k])| <==> Escaped(src[..j]) == Escaped(src[..k])
  {
    assert src[..k] == src[..j] + src[j..k];
    EscapedAppend(src[..j], src[j..k]);
  }

  lemma WholePrefix(src: string, k: nat)
    requires k == |src|
    ensures src[..k] == src
  {
  }

  /** The number of characters, from the front, whose escapes fit into the room. */
  function Fit(src: string, room: nat): (k: nat)
    ensures k <= |src|
  {
    if src == "" || |Esc(src[0])| > room then 0 else 1 + Fit(src[1..], room - |Esc(src[0])|)
  }

  /** It is the longest prefix that fits. */
  lemma {:induction false} FitIsLongest(src: string, room: nat)
    ensures var k := Fit(src, room);
            && |Escaped(src[..k])| <= room
            && (k < |src| ==> |Escaped(src[..k + 1])| > room)
  {
    if src != "" && |Esc(src[0])| <= room {
      FitIsLongest(src[1..], room - |Esc(src[0])|);
      var k := Fit(src[1..], room - |Esc(src[0])|);
      assert src[..k + 1] == [src[0]] + src[1..][..k];
      if k + 1 < |src| {
        assert src[..k + 2] == [src[0]] + src[1..][..k + 1];
      }
    }
  }

  /** No other prefix is as long and fits. */
  lemma LongestFits(src: string, room: nat, k: nat)
    requires k <= |src| && |Escaped(src[..k])| <= room
    ensures k <= Fit(src, room)
  {
    var fit := Fit(src, room);
    FitIsLongest(src, room);
    if k > fit {
      EscapedPrefix(src, fit + 1, k);
    }
  }

  /** An escape of two characters would be cut in half: the longest prefix leaves room for one character. */
  predicate CutsEscape(src: string, size: nat)
    requires size >= 1
  {
    var k := Fit(src, size - 1);
    k < |src| && |Escaped(src[..k])| == size - 2 && |Esc(src[k])| == 2
  }

  /** The text is cut, but no escape is. */
  predicate CutsSilently(src: string, size: nat)
    requires size >= 1
  {
    |Escaped(src)| >= size && !CutsEscape(src, size)
  }

  /** An escape is cut in half exactly when some prefix leaves room for one character and a two-character escape
      follows it. */
  lemma CutsEscapeExactly(src: string, size: nat)
    requires size >= 1
    ensures CutsEscape(src, size) <==>
              exists k :: 0 <= k < |src| && |Escaped(src[..k])| == size - 2 && |Esc(src[k])| == 2
  {
    forall k | 0 <= k < |src| && |Escaped(src[..k])| == size - 2 && |Esc(src[k])| == 2
      ensures Fit(src, size - 1) == k
    {
      LongestFits(src, size - 1, k);
      FitIsLongest(src, size - 1);
      EscapedSnoc(src, k);
      if k + 1 <= Fit(src, size - 1) {
        EscapedPrefix(src, k + 1, Fit(src, size - 1));
      }
    }
  }

  /** A text that does not fit is cut silently exactly when the escape of one of its prefixes fills the buffer. */
  lemma CutsSilentlyExactly(src: string, size: nat)
    requires size >= 1
    ensures CutsSilently(src, size) <==>
              |Escaped(src)| >= size && exists k :: 0 <= k <= |src| && |Escaped(src[..k])| == size - 1
  {
    var fit := Fit(src, size - 1);
    FitIsLongest(src, size - 1);
    if |Escaped(src)| >= size {
      WholePrefix(src, |src|);
      assert fit < |src|;
      EscapedSnoc(src, fit);
      forall k | 0 <= k <= |src| && |Escaped(src[..k])| == size - 1
        ensures |Escaped(src[..fit])| == size - 1
      {
        LongestFits(src, size - 1, k);
        EscapedPrefix(src, k, fit);
      }
    }
  }

  /** Behind a prefix that fills the room only characters without an escape fit. */
  lemma {:induction false} FitNoRoom(src: string)
    ensures Escaped(src[..Fit(src, 0)]) == ""
  {
    if src != "" && |Esc(src[0])| == 0 {
      FitNoRoom(src[1..]);
      assert src[..Fit(src, 0)][1..] == src[1..][..Fit(src[1..], 0)];
    }
  }

  lemma FitFilled(src: string, k: nat, rest: nat)
    requires k <= |src| && rest == Fit(src[k..], 0)
    ensures Escaped(src[..k + rest]) == Escaped(src[..k])
  {
    FitNoRoom(src[k..]);
    assert src[..k + rest] == src[..k] + src[k..][..rest];
    EscapedAppend(src[..k], src[k..][..rest]);
  }

  /** s characters are dealt with, and what is in the buffer is their escape. */
  ghost predicate Escaping(held: string, src: string, s: nat, spaceLeft: nat, size: nat) {
    && 1 <= size && s <= |src| && |held| + spaceLeft == size - 1 && held == Escaped(src[..s])
    && Fit(src, size - 1) == s + Fit(src[s..], spaceLeft)
  }

  lemma EscapingStarts(src: string, size: nat)
    requires size >= 1
    ensures Escaping("", src, 0, size - 1, size)
  {
    assert src[0..] == src && src[..0] == "";
  }

  lemma EscapingStep(held: string, src: string, s: nat, spaceLeft: nat, size: nat)
    requires Escaping(held, src, s, spaceLeft, size) && s < |src| && |Esc(src[s])| <= spaceLeft
    ensures Escaping(held + Esc(src[s]), src, s + 1, spaceLeft - |Esc(src[s])|, size)
  {
    EscapedSnoc(src, s);
    assert src[s..][1..] == src[s + 1..];
  }

  lemma EscapingEnds(held: string, src: string, s: nat, spaceLeft: nat, size: nat)
    requires Escaping(held, src, s, spaceLeft, size) && (s == |src| || spaceLeft == 0)
    ensures held == Escaped(src[..Fit(src, size - 1)]) && !CutsEscape(src, size)
  {
    if s < |src| {
      FitFilled(src, s, Fit(src[s..], 0));
    }
  }

  lemma EscapingCut(held: string, src: string, s: nat, size: nat)
    requires Escaping(held, src, s, 1, size) && s < |src| && |Esc(src[s])| == 2
    ensures held == Escaped(src[..Fit(src, size - 1)]) && CutsEscape(src, size)
  {
  }

  /** Writes an escape of at most two characters. */
  method WriteEscape(dest: array<char>, d: nat, e: string)
    requires |e| <= 2 && d + |e| < dest.Length
    modifies dest
    ensures dest[..d + |e|] == old(dest[..d]) + e
  {
    if |e| > 0 {
      dest[d] := e[0];
    }
    if |e| == 2 {
      dest[d + 1] := e[1];
    }
  }

  /** One character of the text, unless its escape has two characters and only one is left. */
  method EscapeOne(dest: array<char>, src: string, d: nat, s: nat) returns (d': nat)
    requires s < |src| && d < dest.Length - 1
    requires |Esc(src[s])| == 2 ==> d < dest.Length - 2
    modifies dest
    ensures d' == d + |Esc(src[s])| && d' < dest.Length && dest[..d'] == old(dest[..d]) + Esc(src[s])
  {
    WriteEscape(dest, d, Esc(src[s]));
    d' := d + |Esc(src[s])|;
  }

  /** The loop over the text; the last character of the buffer stays free. */
  method EscapeLoop(dest: array<char>, src: string) returns (d: nat, truncated: bool)
    requires dest.Length >= 1
    modifies dest
    ensures d < dest.Length && dest[..d] == Escaped(src[..Fit(src, dest.Length - 1)])
    ensures truncated == CutsEscape(src, dest.Length)
  {
    var s: nat := 0;
    d := 0;
    EscapingStarts(src, dest.Length);
    while s < |src| && dest.Length - 1 - d > 0
      invariant d < dest.Length
      invariant Escaping(dest[..d], src, s, dest.Length - 1 - d, dest.Length)
      decreases |src| - s
    {
      ghost var held, spaceLeft := dest[..d], dest.Length - 1 - d;
      if |Esc(src[s])| == 2 && dest.Length - 1 - d < 2 {
        EscapingCut(held, src, s, dest.Length);
        return d, true;
      }
      EscapingStep(held, src, s, spaceLeft, dest.Length);
      d := EscapeOne(dest, src, d, s);
      s := s + 1;
    }
    EscapingEnds(dest[..d], src, s, dest.Length - 1 - d, dest.Length);
    truncated := false;
  }

  /** Escapes as much of src as fits into dest, with a NUL behind it. */
  method EscapeString(dest: array<char>, src: string) returns (n: int)
    modifies dest
    ensures dest.Length < 1 ==> n == -1
    // the buffer holds the escape of the longest prefix whose escape fits
    ensures dest.Length >= 1 ==>
              var e := Escaped(src[..Fit(src, dest.Length - 1)]);
              && |e| < dest.Length && dest[..|e|] == e && dest[|e|] == '\0'
              && n == if CutsEscape(src, dest.Length) then -1 else |e|
  {
    if dest.Length < 1 {
      return -1;
    }
    var d, truncated := EscapeLoop(dest, src);
    dest[d] := '\0';
    return if truncated then -1 else d;
  }

  /** A text can be cut without -1: of "ab" only "a" fits into two characters, and no escape is cut. */
  lemma SilentTruncation()
    ensures Fit("ab", 1) == 1 && Escaped("ab"[..1]) == "a" && CutsSilently("ab", 2)
  {
    assert "ab"[1..] == "b" && "ab"[..1] == "a" && Escaped("b") == "b" && Escaped("a") == "a";
  }

  /** So the result of escaping "ab" into two characters is the length of "a", as if that were all. */
  method EscapeIntoTwo(dest: array<char>) returns (n: int)
    requires dest.Length == 2
    modifies dest
    ensures n == 1 && dest[..] == Escaped("ab"[..Fit("ab", 1)]) + "\0"
  {
    SilentTruncation();
    n := EscapeString(dest, "ab");
    assert dest[..] == dest[..1] + [dest[1]];
  }

  // ----- Unescaping -----

  /** What a backslash and the character behind it stand for. */
  function UnescapedPair(c: char): string {
    if c == QUOTE then [QUOTE]
    else if c == BACKSLASH then [BACKSLASH]
    else if c == 'n' then ['\n']
    else if c == 'r' then ['\r']
    else if c == 't' then ['\t']
    else [BACKSLASH, c]
  }

  /** What both parsers do with the characters between the quotes: the escapes of a quote, a backslash, a newline,
      a return and a tab are undone, every other character stays. */
  function Unescaped(s: string): string {
    if s == "" then ""
    else if s[0] == BACKSLASH && |s| > 1 then UnescapedPair(s[1]) + Unescaped(s[2..])
    else [s[0]] + Unescaped(s[1..])
  }

  // ----- Escapes as JSON -----

  /** What an escape of section 7 of RFC 8259 stands for, if it is one of the short ones. */
  function JsonPair(c: char): Option<char> {
    if c == QUOTE || c == BACKSLASH || c == '/' then Some(c)
    else if c == 'b' then Some(BACKSPACE)
    else if c == 'f' then Some(FORM_FEED)
    else if c == 'n' then Some('\n')
    else if c == 'r' then Some('\r')
    else if c == 't' then Some('\t')
    else None
  }

  /** The text that the inside of a JSON string stands for, by section 7 of RFC 8259, if it has only short escapes: a
      quote, a backslash and every control character has to be escaped. */
  function JsonMeaning(s: string): Option<string> {
    if s == "" then Some("")
    else if s[0] == BACKSLASH then
      if |s| == 1 || JsonPair(s[1]).None? then None
      else
        match JsonMeaning(s[2..])
        case None => None
        case Some(rest) => Some([JsonPair(s[1]).value] + rest)
    else if s[0] == QUOTE || s[0] as int < 0x20 then None
    else
      match JsonMeaning(s[1..])
      case None => None
      case Some(rest) => Some([s[0]] + rest)
  }

  /** ASCII without the control characters that have no short escape. */
  predicate HasEscape(c: char) {
    0x20 <= c as int < 0x80 || c in [BACKSPACE, FORM_FEED, '\n', '\r', '\t']
  }

  function OnlyEscapable(t: string): string {
    if t == "" then "" else (if HasEscape(t[0]) then [t[0]] else []) + OnlyEscapable(t[1..])
  }

  /** Every escaped text is the inside of a JSON string, and stands for the text without the characters that are
      dropped. */
  lemma {:induction false} EscapedIsJson(t: string)
    ensures JsonMeaning(Escaped(t)) == Some(OnlyEscapable(t))
  {
    if t != "" {
      EscapedIsJson(t[1..]);
      var e, rest := Esc(t[0]), Escaped(t[1..]);
      if |e| == 2 {
        assert (e + rest)[2..] == rest && (e + rest)[0] == BACKSLASH && (e + rest)[1] == e[1];
      } else if |e| == 1 {
        assert (e + rest)[1..] == rest && (e + rest)[0] == t[0];
      } else {
        assert e + rest == rest;
        assert [] + OnlyEscapable(t[1..]) == OnlyEscapable(t[1..]);
      }
    }
  }

  // ----- Escaping and unescaping -----

  /** What escaping and unescaping makes of one character: the parsers do not know \\b and \\f. */
  function Kept(c: char): string {
    if c == BACKSPACE then [BACKSLASH, 'b']
    else if c == FORM_FEED then [BACKSLASH, 'f']
    else if c == '\n' || c == '\r' || c == '\t' then [c]
    else if c as int < 0x20 || c as int >= 0x80 then []
    else [c]
  }

  function AllKept(s: string): string {
    if s == "" then "" else Kept(s[0]) + AllKept(s[1..])
  }

  /** Printable ASCII (with DEL), newline, return and tab. */
  predicate Plain(c: char) {
    0x20 <= c as int < 0x80 || c == '\n' || c == '\r' || c == '\t'
  }

  predicate PlainText(s: string) {
    forall i :: 0 <= i < |s| ==> Plain(s[i])
  }

  lemma UnescapeOne(c: char, rest: string)
    ensures Unescaped(Esc(c) + rest) == Kept(c) + Unescaped(rest)
  {
    var s := Esc(c) + rest;
    if |Esc(c)| == 2 {
      assert s[0] == BACKSLASH && s[1] == Esc(c)[1] && s[2..] == rest;
    } else if |Esc(c)| == 1 {
      assert s[0] == c && s[1..] == rest;
    } else {
      assert s == rest;
      assert Kept(c) + Unescaped(rest) == Unescaped(rest);
    }
  }

  /** Unescaping undoes escaping, up to the characters that are not plain, whatever follows. */
  lemma {:induction false} UnescapeEscaped(t: string, rest: string)
    ensures Unescaped(Escaped(t) + rest) == AllKept(t) + Unescaped(rest)
  {
    if t == "" {
      assert Escaped(t) + rest == rest && AllKept(t) + Unescaped(rest) == Unescaped(rest);
    } else {
      assert Escaped(t) + rest == Esc(t[0]) + (Escaped(t[1..]) + rest);
      UnescapeOne(t[0], Escaped(t[1..]) + rest);
      UnescapeEscaped(t[1..], rest);
      assert Kept(t[0]) + (AllKept(t[1..]) + Unescaped(rest)) == AllKept(t) + Unescaped(rest);
    }
  }

  lemma {:induction false} KeptIsPlain(t: string)
    ensures PlainText(AllKept(t))
    ensures PlainText(t) ==> AllKept(t) == t
  {
    if t != "" {
      KeptIsPlain(t[1..]);
      assert t == [t[0]] + t[1..];
    }
  }

  /** The text comes back unchanged exactly when it is plain. */
  lemma KeptExactly(t: string)
    ensures AllKept(t) == t <==> PlainText(t)
  {
    KeptIsPlain(t);
  }

  // ----- Finding the text in a response -----

  /** The library's strstr: the first place at which the needle occurs. */
  function IndexOf(hay: string, needle: string): (r: Option<nat>)
    ensures r.Some? ==> r.value + |needle| <= |hay| && needle <= hay[r.value..]
  {
    if |hay| < |needle| then None
    else if needle <= hay then Some(0)
    else if hay == "" then None
    else
      match IndexOf(hay[1..], needle)
      case None => None
      case Some(i) => assert hay[1..][i..] == hay[i + 1..]; Some(i + 1)
  }

  /** No earlier place holds the needle, and none at all does if it is not found. */
  lemma {:induction false} IndexOfIsFirst(hay: string, needle: string)
    ensures IndexOf(hay, needle).Some? ==>
              forall i :: 0 <= i < IndexOf(hay, needle).value ==> !(needle <= hay[i..])
    ensures IndexOf(hay, needle).None? ==> forall i :: 0 <= i <= |hay| ==> !(needle <= hay[i..])
  {
    if hay != "" && !(needle <= hay) {
      IndexOfIsFirst(hay[1..], needle);
      forall i | 0 < i <= |hay|
        ensures hay[i..] == hay[1..][i - 1..]
      {
      }
      assert hay[0..] == hay;
    }
  }

  /** A needle that stands at a place, and nowhere before it, is found there. */
  lemma IndexOfIs(hay: string, needle: string, at: nat)
    requires at <= |hay| && needle <= hay[at..] && forall i :: 0 <= i < at ==> !(needle <= hay[i..])
    ensures IndexOf(hay, needle) == Some(at)
  {
    IndexOfIsFirst(hay, needle);
  }

  predicate Whitespace(c: char) {
    c == ' ' || c == '\t' || c == '\n' || c == '\r'
  }

  function SkipWhitespace(s: string): string {
    if s != "" && Whitespace(s[0]) then SkipWhitespace(s[1..]) else s
  }

  /** The number of backslashes right before position i. */
  function Backslashes(s: string, i: nat): nat
    requires i <= |s|
  {
    if i == 0 || s[i - 1] != BACKSLASH then 0 else 1 + Backslashes(s, i - 1)
  }

  const MAX_CONTENT := 10000

  /** The first quote from position i on that an even number of backslashes precedes; the search gives up behind
      MAX_CONTENT characters. */
  function ClosingQuote(s: string, i: nat := 0): (r: Option<nat>)
    requires i <= |s|
    ensures r.Some? ==> i <= r.value < |s|
    decreases |s| - i
  {
    if i == |s| then None
    else if s[i] == QUOTE && Backslashes(s, i) % 2 == 0 then Some(i)
    else if i + 1 > MAX_CONTENT then None
    else ClosingQuote(s, i + 1)
  }

  /** The first quote from position i on that is not right behind a backslash; the character before the string
      is the opening quote. */
  function OllamaClosingQuote(s: string, i: nat := 0): (r: Option<nat>)
    requires i <= |s|
    ensures r.Some? ==> i <= r.value < |s|
    decreases |s| - i
  {
    if i == |s| then None
    else if s[i] == QUOTE && (i == 0 || s[i - 1] != BACKSLASH) then Some(i)
    else OllamaClosingQuote(s, i + 1)
  }

  const CONTENT_LABEL := "\"content\":"
  const RESPONSE_LABEL := "\"response\":\""

  /** The value of the first content field, or nothing. */
  function Content(json: string): Option<string> {
    match IndexOf(json, CONTENT_LABEL)
    case None => None
    case Some(at) => QuotedValue(SkipWhitespace(json[at + |CONTENT_LABEL|..]))
  }

  function QuotedValue(value: string): Option<string> {
    if value == "" || value[0] != QUOTE then None
    else
      match ClosingQuote(value[1..])
      case None => None
      case Some(end) => Some(Unescaped(value[1..][..end]))
  }

  /** The value of the first response field, or nothing. */
  function OllamaContent(json: string): Option<string> {
    match IndexOf(json, RESPONSE_LABEL)
    case None => None
    case Some(at) => OllamaValue(json[at + |RESPONSE_LABEL|..])
  }

  function OllamaValue(value: string): Option<string> {
    match OllamaClosingQuote(value)
    case None => None
    case Some(end) => Some(Unescaped(value[..end]))
  }

  // ----- The parsers -----

  method FindClosingQuote(s: string) returns (r: Option<nat>)
    ensures r == ClosingQuote(s)
  {
    var end, charCount := 0, 0;
    while end < |s|
      invariant 0 <= end == charCount <= |s|
      invariant ClosingQuote(s, end) == ClosingQuote(s)
      decreases |s| - end
    {
      if s[end] == QUOTE {
        var count := CountBackslashes(s, end);
        if count % 2 == 0 {
          return Some(end);
        }
      }
      end, charCount := end + 1, charCount + 1;
      if charCount > MAX_CONTENT {
        return None;
      }
    }
    return None;
  }

  method CountBackslashes(s: string, end: nat) returns (count: nat)
    requires end <= |s|
    ensures count == Backslashes(s, end)
  {
    count := 0;
    var p := end - 1;
    while p >= 0 && s[p] == BACKSLASH
      invariant -1 <= p < end && count == end - 1 - p
      invariant Backslashes(s, end) == count + Backslashes(s, p + 1)
    {
      count, p := count + 1, p - 1;
    }
  }

  /** The copy loop of parse_json_response. */
  method Unescape(s: string) returns (r: string)
    ensures r == Unescaped(s)
  {
    r := "";
    var src := 0;
    while src < |s|
      invariant 0 <= src <= |s|
      invariant Unescaped(s) == r + Unescaped(s[src..])
    {
      var piece := [s[src]];
      ghost var from := src;
      if s[src] == BACKSLASH && src + 1 < |s| {
        src := src + 1;
        if s[src] == QUOTE {
          piece := [QUOTE];
        } else if s[src] == BACKSLASH {
          piece := [BACKSLASH];
        } else if s[src] == 'n' {
          piece := ['\n'];
        } else if s[src] == 'r' {
          piece := ['\r'];
        } else if s[src] == 't' {
          piece := ['\t'];
        } else {
          piece := [BACKSLASH, s[src]];
        }
      }
      src := src + 1;
      UnescapeStep(s, from, src, piece, r);
      r := r + piece;
    }
    assert s[src..] == "" && r + "" == r;
  }

  /** Copying one piece: either one character, or what an escape stands for. */
  lemma UnescapeStep(s: string, i: nat, next: nat, piece: string, r: string)
    requires i < next <= |s|
    requires if i + 1 < |s| && s[i] == BACKSLASH then next == i + 2 && piece == UnescapedPair(s[i + 1])
             else next == i + 1 && piece == [s[i]]
    ensures r + Unescaped(s[i..]) == (r + piece) + Unescaped(s[next..])
  {
    assert s[i..][1..] == s[i + 1..];
    if i + 1 < |s| {
      assert s[i..][2..] == s[i + 2..];
    }
    assert Unescaped(s[i..]) == piece + Unescaped(s[next..]);
  }

  /** The copy loop of parse_ollama_json_response: an unknown escape keeps its backslash, and the character behind
      it is copied in the next round. */
  method OllamaUnescape(s: string) returns (r: string)
    ensures r == Unescaped(s)
  {
    r := "";
    var i := 0;
    while i < |s|
      invariant 0 <= i <= |s|
      invariant Unescaped(s) == r + Unescaped(s[i..])
      decreases |s| - i
    {
      var piece := [s[i]];
      ghost var from := i;
      if s[i] == BACKSLASH && i + 1 < |s| {
        var c := s[i + 1];
        if c == 'n' {
          piece, i := ['\n'], i + 1;
        } else if c == 'r' {
          piece, i := ['\r'], i + 1;
        } else if c == 't' {
          piece, i := ['\t'], i + 1;
        } else if c == QUOTE {
          piece, i := [QUOTE], i + 1;
        } else if c == BACKSLASH {
          piece, i := [BACKSLASH], i + 1;
        }
      }
      i := i + 1;
      OllamaStep(s, from, i, piece, r);
      r := r + piece;
    }
    assert s[i..] == "" && r + "" == r;
  }

  lemma OllamaStep(s: string, i: nat, next: nat, piece: string, r: string)
    requires i < next <= |s|
    requires if i + 1 < |s| && s[i] == BACKSLASH && |UnescapedPair(s[i + 1])| == 1
             then next == i + 2 && piece == UnescapedPair(s[i + 1])
             else next == i + 1 && piece == [s[i]]
    ensures r + Unescaped(s[i..]) == (r + piece) + Unescaped(s[next..])
  {
    if i + 1 < |s| && s[i] == BACKSLASH && next == i + 1 {
      UnknownEscape(s, i);
      assert r + ([BACKSLASH] + Unescaped(s[i + 1..])) == (r + [BACKSLASH]) + Unescaped(s[i + 1..]);
    } else {
      UnescapeStep(s, i, next, piece, r);
    }
  }

  lemma UnknownEscape(s: string, i: nat)
    requires i + 1 < |s| && s[i] == BACKSLASH && |UnescapedPair(s[i + 1])| == 2
    ensures Unescaped(s[i..]) == [BACKSLASH] + Unescaped(s[i + 1..])
  {
    UnescapeStep(s, i, i + 2, UnescapedPair(s[i + 1]), "");
    UnescapeStep(s, i + 1, i + 2, [s[i + 1]], "");
    assert UnescapedPair(s[i + 1]) == [BACKSLASH] + [s[i + 1]];
    assert [BACKSLASH] + ([s[i + 1]] + Unescaped(s[i + 2..])) == ([BACKSLASH] + [s[i + 1]]) + Unescaped(s[i + 2..]);
  }

  method ParseResponse(json: string) returns (r: Option<string>)
    ensures r == Content(json)
  {
    var at := IndexOf(json, CONTENT_LABEL);
    if at.None? {
      return None;
    }
    var start := SkipBlanks(json, at.value + |CONTENT_LABEL|);
    r := ParseQuoted(json[start..]);
  }

  /** The value from its opening quote on. */
  method ParseQuoted(value: string) returns (r: Option<string>)
    ensures r == QuotedValue(value)
  {
    if value == "" || value[0] != QUOTE {
      return None;
    }
    var end := FindClosingQuote(value[1..]);
    if end.None? {
      return None;
    }
    var text := Unescape(value[1..][..end.value]);
    return Some(text);
  }

  method SkipBlanks(json: string, from: nat) returns (start: nat)
    requires from <= |json|
    ensures from <= start <= |json| && json[start..] == SkipWhitespace(json[from..])
  {
    start := from;
    while start < |json| && Whitespace(json[start])
      invariant from <= start <= |json|
      invariant SkipWhitespace(json[from..]) == SkipWhitespace(json[start..])
    {
      assert json[start..][1..] == json[start + 1..];
      start := start + 1;
    }
  }

  method ParseOllamaResponse(json: string) returns (r: Option<string>)
    ensures r == OllamaContent(json)
  {
    var at := IndexOf(json, RESPONSE_LABEL);
    if at.None? {
      return None;
    }
    var value := json[at.value + |RESPONSE_LABEL|..];
    var end := 0;
    while end < |value|
      invariant 0 <= end <= |value| && OllamaClosingQuote(value, end) == OllamaClosingQuote(value)
    {
      if value[end] == QUOTE && (end == 0 || value[end - 1] != BACKSLASH) {
        var text := OllamaUnescape(value[..end]);
        return Some(text);
      }
      end := end + 1;
    }
    return None;
  }

  // ----- Round trips -----

  lemma {:induction false} BackslashesOfPrefix(a: string, b: string, i: nat)
    requires i <= |a|
    ensures Backslashes(a + b, i) == Backslashes(a, i)
  {
    if i > 0 {
      BackslashesOfPrefix(a, b, i - 1);
    }
  }

  /** The quote at i does not close the string. */
  predicate Inner(s: string, i: nat)
    requires i <= |s|
  {
    i < |s| && s[i] == QUOTE ==> Backslashes(s, i) % 2 == 1
  }

  /** In an escaped text every quote follows an odd number of backslashes, and an even number of them ends it. */
  lemma {:induction false} EscapedQuotes(t: string)
    ensures var e := Escaped(t); Backslashes(e, |e|) % 2 == 0 && forall i :: 0 <= i < |e| ==> Inner(e, i)
  {
    if t != "" {
      var k := |t| - 1;
      assert t[..k + 1] == t;
      EscapedSnoc(t, k);
      EscapedQuotes(t[..k]);
      EscapedQuotesStep(Escaped(t[..k]), t[k]);
    }
  }

  lemma EscapedQuotesStep(e: string, c: char)
    requires Backslashes(e, |e|) % 2 == 0 && forall i :: 0 <= i < |e| ==> Inner(e, i)
    ensures var e' := e + Esc(c); Backslashes(e', |e'|) % 2 == 0 && forall i :: 0 <= i < |e'| ==> Inner(e', i)
  {
    var e' := e + Esc(c);
    BackslashesOfPrefix(e, Esc(c), |e|);
    forall i | 0 <= i < |e'|
      ensures Inner(e', i)
    {
      if i < |e| {
        assert Inner(e, i) && e'[i] == e[i];
        BackslashesOfPrefix(e, Esc(c), i);
      }
    }
    if |Esc(c)| == 0 {
      assert e' == e;
    }
  }

  /** A search that meets no closing quote before n finds the one at n, unless it gives up before. */
  lemma ClosingQuoteIsAt(s: string, i: nat, n: nat)
    requires i <= n < |s| && i <= MAX_CONTENT
    requires s[n] == QUOTE && Backslashes(s, n) % 2 == 0 && forall j :: i <= j < n ==> Inner(s, j)
    ensures ClosingQuote(s, i) == if n <= MAX_CONTENT then Some(n) else None
    decreases n - i
  {
    if i < n {
      assert Inner(s, i);
      if i + 1 <= MAX_CONTENT {
        ClosingQuoteIsAt(s, i + 1, n);
      }
    }
  }

  lemma ClosingQuoteOfEscaped(t: string, rest: string)
    ensures var e := Escaped(t);
            ClosingQuote(e + [QUOTE] + rest) == if |e| <= MAX_CONTENT then Some(|e|) else None
  {
    var e := Escaped(t);
    var s := e + [QUOTE] + rest;
    assert s == e + ([QUOTE] + rest);
    EscapedQuotes(t);
    BackslashesOfPrefix(e, [QUOTE] + rest, |e|);
    forall j | 0 <= j < |e|
      ensures Inner(s, j)
    {
      assert Inner(e, j);
      BackslashesOfPrefix(e, [QUOTE] + rest, j);
    }
    ClosingQuoteIsAt(s, 0, |e|);
  }

  lemma {:induction false} SkipsAll(ws: string, rest: string)
    requires (forall i :: 0 <= i < |ws| ==> ws[i] in " \t\n\r") && rest != "" && rest[0] !in " \t\n\r"
    ensures SkipWhitespace(ws + rest) == rest
  {
    if ws == "" {
      assert ws + rest == rest;
    } else {
      assert (ws + rest)[1..] == ws[1..] + rest;
      SkipsAll(ws[1..], rest);
    }
  }

  /** A response with the escaped text as its content field. */
  function ContentMessage(pre: string, ws: string, t: string, rest: string): string {
    pre + (CONTENT_LABEL + (ws + ([QUOTE] + (Escaped(t) + [QUOTE] + rest))))
  }

  /** The round trip: a text put into the first content field, that is, behind a label that begins nowhere before, is
      parsed back unchanged if and only if it is plain and its escape is at most MAX_CONTENT characters long. */
  lemma ContentRoundTrip(pre: string, ws: string, t: string, rest: string)
    requires forall i :: 0 <= i < |ws| ==> ws[i] in " \t\n\r"
    requires forall i :: 0 <= i < |pre| ==> !(CONTENT_LABEL <= ContentMessage(pre, ws, t, rest)[i..])
    ensures Content(ContentMessage(pre, ws, t, rest)) ==
              if |Escaped(t)| <= MAX_CONTENT then Some(AllKept(t)) else None
    ensures Content(ContentMessage(pre, ws, t, rest)) == Some(t) <==> |Escaped(t)| <= MAX_CONTENT && PlainText(t)
  {
    var body := Escaped(t) + [QUOTE] + rest;
    LabelIsFound(pre, CONTENT_LABEL, ws + ([QUOTE] + body));
    SkipsAll(ws, [QUOTE] + body);
    QuotedRoundTrip(t, rest);
    KeptExactly(t);
  }

  /** A field whose value does not begin with a quote, behind blanks, gives nothing. */
  lemma NothingButQuotes(pre: string, ws: string, rest: string)
    requires forall i :: 0 <= i < |ws| ==> ws[i] in " \t\n\r"
    requires rest != "" && rest[0] !in " \t\n\r" && rest[0] != QUOTE
    requires forall i :: 0 <= i < |pre| ==> !(CONTENT_LABEL <= (pre + (CONTENT_LABEL + (ws + rest)))[i..])
    ensures Content(pre + (CONTENT_LABEL + (ws + rest))) == None
  {
    LabelIsFound(pre, CONTENT_LABEL, ws + rest);
    SkipsAll(ws, rest);
  }

  /** A label is found behind anything in which, and in whose continuation, it does not begin earlier. */
  lemma LabelIsFound(pre: string, tag: string, rest: string)
    requires forall i :: 0 <= i < |pre| ==> !(tag <= (pre + (tag + rest))[i..])
    ensures IndexOf(pre + (tag + rest), tag) == Some(|pre|)
    ensures (pre + (tag + rest))[|pre| + |tag|..] == rest
  {
    var message := pre + (tag + rest);
    assert message[|pre|..] == tag + rest;
    IndexOfIs(message, tag, |pre|);
  }

  /** The simplest response of the one kind ... */
  lemma SimpleResponse()
    ensures Content("{\"content\":\"hi\"}") == Some("hi")
  {
    var message := ContentMessage("{", "", "hi", "}");
    assert Escaped("hi") == "hi" by {
      assert "hi"[1..] == "i";
    }
    assert message == "{\"content\":\"hi\"}";
    assert message[0] == '{' && CONTENT_LABEL[0] == QUOTE;
    assert MAX_CONTENT >= 2;
    ContentRoundTrip("{", "", "hi", "}");
  }

  lemma QuotedRoundTrip(t: string, rest: string)
    ensures QuotedValue([QUOTE] + (Escaped(t) + [QUOTE] + rest)) ==
              if |Escaped(t)| <= MAX_CONTENT then Some(AllKept(t)) else None
  {
    var body := Escaped(t) + [QUOTE] + rest;
    assert ([QUOTE] + body)[1..] == body;
    ClosingQuoteOfEscaped(t, rest);
    assert body[..|Escaped(t)|] == Escaped(t);
    UnescapeWhole(t);
  }

  lemma UnescapeWhole(t: string)
    ensures Unescaped(Escaped(t)) == AllKept(t)
  {
    UnescapeEscaped(t, "");
    assert Escaped(t) + "" == Escaped(t) && AllKept(t) + "" == AllKept(t);
  }

  /** A response with the escaped text as its response field. */
  function OllamaMessage(pre: string, t: string, rest: string): string {
    pre + (RESPONSE_LABEL + (Escaped(t) + [QUOTE] + rest))
  }

  predicate EndsInBackslash(t: string) {
    t != "" && t[|t| - 1] == BACKSLASH
  }

  ghost predicate QuotesBehindBackslashes(e: string) {
    forall i :: 0 <= i < |e| && e[i] == QUOTE ==> i > 0 && e[i - 1] == BACKSLASH
  }

  /** In an escaped text every quote is right behind a backslash. */
  lemma {:induction false} QuotesAreEscaped(t: string)
    ensures QuotesBehindBackslashes(Escaped(t))
    ensures PlainText(t) ==> (EndsInBackslash(Escaped(t)) <==> EndsInBackslash(t))
  {
    if t != "" {
      var k := |t| - 1;
      WholePrefix(t, k + 1);
      EscapedSnoc(t, k);
      QuotesAreEscaped(t[..k]);
      QuotesAreEscapedStep(Escaped(t[..k]), t[k]);
    }
  }

  lemma QuotesAreEscapedStep(e: string, c: char)
    requires QuotesBehindBackslashes(e)
    ensures QuotesBehindBackslashes(e + Esc(c))
    ensures Plain(c) ==> (EndsInBackslash(e + Esc(c)) <==> c == BACKSLASH)
  {
  }

  lemma OllamaQuoteIsAt(s: string, i: nat, n: nat)
    requires i <= n < |s|
    requires forall j :: i <= j < n ==> !(s[j] == QUOTE && (j == 0 || s[j - 1] != BACKSLASH))
    ensures s[n] == QUOTE && (n == 0 || s[n - 1] != BACKSLASH) ==> OllamaClosingQuote(s, i) == Some(n)
    ensures !(s[n] == QUOTE && (n == 0 || s[n - 1] != BACKSLASH)) ==>
              OllamaClosingQuote(s, i).None? || OllamaClosingQuote(s, i).value > n
    decreases n - i
  {
    if i < n {
      OllamaQuoteIsAt(s, i + 1, n);
    }
  }

  /** The round trip through the Ollama parser: a text is parsed back unchanged if and only if it is plain and does
      not end in a backslash. */
  lemma OllamaRoundTrip(pre: string, t: string, rest: string)
    requires forall i :: 0 <= i < |pre| ==> !(RESPONSE_LABEL <= OllamaMessage(pre, t, rest)[i..])
    ensures OllamaContent(OllamaMessage(pre, t, rest)) == Some(t) <==> PlainText(t) && !EndsInBackslash(t)
  {
    assert OllamaMessage(pre, t, rest) == pre + (RESPONSE_LABEL + (Escaped(t) + [QUOTE] + rest));
    LabelIsFound(pre, RESPONSE_LABEL, Escaped(t) + [QUOTE] + rest);
    OllamaValueRoundTrip(t, rest);
  }

  /** ... and of the other. */
  lemma SimpleOllamaResponse()
    ensures OllamaContent("{\"response\":\"hi\"}") == Some("hi")
  {
    var message := OllamaMessage("{", "hi", "}");
    assert Escaped("hi") == "hi" by {
      assert "hi"[1..] == "i";
    }
    assert message == "{\"response\":\"hi\"}";
    assert message[0] == '{' && RESPONSE_LABEL[0] == QUOTE;
    OllamaRoundTrip("{", "hi", "}");
  }

  /** The quote behind an escaped text is found exactly if the text does not end in a backslash. */
  lemma OllamaQuoteOfEscaped(e: string, rest: string)
    requires QuotesBehindBackslashes(e)
    ensures var s := e + [QUOTE] + rest;
            if EndsInBackslash(e) then OllamaClosingQuote(s).None? || OllamaClosingQuote(s).value > |e|
            else OllamaClosingQuote(s) == Some(|e|) && s[..|e|] == e
  {
    var s := e + [QUOTE] + rest;
    assert forall j :: 0 <= j < |e| ==> s[j] == e[j];
    OllamaQuoteIsAt(s, 0, |e|);
  }

  lemma OllamaValueRoundTrip(t: string, rest: string)
    ensures OllamaValue(Escaped(t) + [QUOTE] + rest) == Some(t) <==> PlainText(t) && !EndsInBackslash(t)
  {
    var e := Escaped(t);
    var s := e + [QUOTE] + rest;
    QuotesAreEscaped(t);
    OllamaQuoteOfEscaped(e, rest);
    if !EndsInBackslash(e) {
      UnescapeWhole(t);
      KeptExactly(t);
    } else {
      var end := OllamaClosingQuote(s);
      if end.Some? {
        LongerText(t, rest, end.value);
      }
    }
  }

  /** When the closing quote is missed, what is parsed is not the text: at least that quote is appended to it. */
  lemma LongerText(t: string, rest: string, end: nat)
    requires var s := Escaped(t) + [QUOTE] + rest; |Escaped(t)| < end <= |s|
    ensures Unescaped((Escaped(t) + [QUOTE] + rest)[..end]) != t
  {
    var e := Escaped(t);
    var s := e + [QUOTE] + rest;
    var more := s[|e|..end];
    assert s[..end] == e + more;
    UnescapeEscaped(t, more);
    assert more[0] == QUOTE;
    assert Unescaped(more) == [QUOTE] + Unescaped(more[1..]);
    KeptAndQuote(t, Unescaped(more));
  }

  /** What is kept of a text, with a quote and more behind it, is another text. */
  lemma {:induction false} KeptAndQuote(t: string, more: string)
    requires more != "" && more[0] == QUOTE
    ensures AllKept(t) + more != t
  {
    if t != "" {
      var kept := AllKept(t[1..]);
      if Plain(t[0]) {
        KeptAndQuote(t[1..], more);
        assert AllKept(t) + more == [t[0]] + (kept + more);
      } else {
        KeptIsPlain(t[1..]);
        assert AllKept(t) + more == Kept(t[0]) + (kept + more);
        assert Plain((kept + more)[0]);
      }
    }
  }
}
