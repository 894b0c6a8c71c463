/** The communication history of a player (src/act.informative.c, add_history): one linked list of texts for each
    channel, cut to its last hundred, and one list for all channels together. */
module History {
  const HIST_LENGTH := 100
  const NUM_HIST := 13
  const HIST_ALL := 0
  const MAX_STRING_LENGTH := 49152

  // ----- Histories as values -----

  /** The last hundred. */
  function Last(s: seq<string>): seq<string> {
    if |s| <= HIST_LENGTH then s else s[|s| - HIST_LENGTH..]
  }

  /** The line that is kept: the time and the text, cut to the buffer they are put together in. */
  function Stamped(stamp: string, text: string): string {
    var line := stamp + text;
    if |line| < MAX_STRING_LENGTH then line else line[..MAX_STRING_LENGTH - 1]
  }

  /** A line that fits into the buffer with its NUL is kept whole, a longer one up to its first 49151 characters. */
  lemma StampedIsPrefix(stamp: string, text: string)
    ensures Stamped(stamp, text) <= stamp + text
    ensures |stamp| + |text| < 49152 ==> Stamped(stamp, text) == stamp + text
    ensures |stamp| + |text| >= 49152 ==> |Stamped(stamp, text)| == 49151
  {
  }

  /** A message on a channel; the clock is read once for its own channel and once more for the list of all. */
  datatype Message = Message(channel: nat, text: string, stamp: string, allStamp: string)

  predicate IsMessage(m: Message) {
    m.channel < NUM_HIST
  }

  /** What a message adds to a channel. */
  function Adds(m: Message, channel: nat): seq<string> {
    if channel == m.channel then [Stamped(m.stamp, m.text)]
    else if channel == HIST_ALL then [Stamped(m.allStamp, m.text)]
    else []
  }

  /** The histories of a player after a message: those it adds to are cut, the others stay. */
  function Step(kept: seq<seq<string>>, m: Message): seq<seq<string>> {
    seq(|kept|, c requires 0 <= c < |kept| => if Adds(m, c) == [] then kept[c] else Last(kept[c] + Adds(m, c)))
  }

  /** A message updates its own channel and then the list of all. */
  lemma StepIsUpdates(kept: seq<seq<string>>, m: Message)
    requires |kept| == NUM_HIST && IsMessage(m)
    ensures var own := kept[m.channel := Last(kept[m.channel] + [Stamped(m.stamp, m.text)])];
      Step(kept, m) == if m.channel == HIST_ALL then own
                       else own[HIST_ALL := Last(kept[HIST_ALL] + [Stamped(m.allStamp, m.text)])]
  {
  }

  function Kept(messages: seq<Message>): (kept: seq<seq<string>>)
    ensures |kept| == NUM_HIST
  {
    if messages == [] then seq(NUM_HIST, c => []) else Step(Kept(messages[..|messages| - 1]), messages[|messages| - 1])
  }

  /** All that was ever sent to a channel. */
  function Sent(messages: seq<Message>, channel: nat): seq<string> {
    if messages == [] then []
    else Sent(messages[..|messages| - 1], channel) + Adds(messages[|messages| - 1], channel)
  }

  /** Cutting after every message keeps as much as cutting once at the end. */
  lemma CutOnce(s: seq<string>, x: string)
    ensures Last(Last(s) + [x]) == Last(s + [x])
  {
  }

  /** After any run each channel holds the last hundred messages sent to it, the list of all the last hundred of
      all channels, in their order. */
  lemma {:induction false} KeepsLastHundred(messages: seq<Message>, channel: nat)
    requires channel < NUM_HIST
    ensures Kept(messages)[channel] == Last(Sent(messages, channel))
  {
    if messages != [] {
      var before, m := messages[..|messages| - 1], messages[|messages| - 1];
      KeepsLastHundred(before, channel);
      if Adds(m, channel) == [] {
        assert Sent(before, channel) + [] == Sent(before, channel);
      } else {
        CutOnce(Sent(before, channel), Adds(m, channel)[0]);
      }
    }
  }

  /** Every message is in the list of all. */
  lemma {:induction false} AllHearsAll(messages: seq<Message>)
    ensures |Sent(messages, HIST_ALL)| == |messages|
    ensures |Kept(messages)[HIST_ALL]| == if |messages| < HIST_LENGTH then |messages| else HIST_LENGTH
  {
    KeepsLastHundred(messages, HIST_ALL);
    if messages != [] {
      AllHearsAll(messages[..|messages| - 1]);
    }
  }

  // ----- One list on the heap -----

  class Block {
    const text: string
    var next: Block?

    constructor (text: string)
      ensures this.text == text && next == null
    {
      this.text := text;
      next := null;
    }
  }

  /** The block at a place of a chain, null outside of it. */
  ghost function At(chain: seq<Block>, i: int): Block? {
    if 0 <= i < |chain| then chain[i] else null
  }

  /** The list that begins with the head runs through the chain and visits no block twice. */
  ghost predicate Linked(head: Block?, chain: seq<Block>)
    reads chain
  {
    && head == At(chain, 0)
    && (forall i {:trigger chain[i].next} :: 0 <= i < |chain| ==> chain[i].next == At(chain, i + 1))
    && (forall i, j :: 0 <= i < j < |chain| ==> chain[i] != chain[j])
  }

  ghost function Texts(chain: seq<Block>): (s: seq<string>)
    ensures |s| == |chain|
  {
    seq(|chain|, i requires 0 <= i < |chain| => chain[i].text)
  }

  /** Walks to the last block. */
  method LastBlock(head: Block, ghost chain: seq<Block>) returns (tmp: Block)
    requires Linked(head, chain)
    ensures chain != [] && tmp == chain[|chain| - 1]
  {
    tmp := head;
    ghost var i := 0;
    while tmp.next != null
      invariant 0 <= i < |chain| && tmp == chain[i]
      decreases |chain| - i
    {
      assert chain[i].next == At(chain, i + 1);
      tmp := tmp.next;
      i := i + 1;
    }
    assert chain[i].next == At(chain, i + 1);
  }

  /** Counts the blocks. */
  method Length(head: Block?, ghost chain: seq<Block>) returns (n: nat)
    requires Linked(head, chain)
    ensures n == |chain|
  {
    n := 0;
    var tmp := head;
    while tmp != null
      invariant n <= |chain| && tmp == At(chain, n)
      decreases |chain| - n
    {
      assert chain[n].next == At(chain, n + 1);
      tmp := tmp.next;
      n := n + 1;
    }
  }

  /** Without its first k blocks the list is the rest of the chain. */
  lemma Behead(head: Block?, chain: seq<Block>, k: nat)
    requires Linked(head, chain) && k <= |chain|
    ensures Linked(At(chain, k), chain[k..]) && Texts(chain[k..]) == Texts(chain)[k..]
  {
    forall i | 0 <= i < |chain| - k
      ensures chain[k..][i].next == At(chain[k..], i + 1)
    {
      assert chain[k + i].next == At(chain, k + i + 1);
    }
  }

  /** Frees blocks from the front until no more than the limit are left. */
  method Trim(head: Block?, ghost chain: seq<Block>) returns (head': Block?, ghost chain': seq<Block>)
    requires Linked(head, chain)
    ensures Linked(head', chain') && Texts(chain') == Last(Texts(chain))
    ensures forall b :: b in chain' ==> b in chain
  {
    var i := Length(head, chain);
    head' := head;
    ghost var k := 0;
    while i > HIST_LENGTH && head' != null
      invariant i == |chain| - k && head' == At(chain, k)
      invariant k == 0 || i >= HIST_LENGTH
      decreases i
    {
      assert chain[k].next == At(chain, k + 1);
      head' := head'.next;
      i := i - 1;
      k := k + 1;
    }
    Behead(head, chain, k);
    chain' := chain[k..];
  }

  /** Links a new block behind the last one. */
  method Append(head: Block?, ghost chain: seq<Block>, text: string) returns (head': Block, ghost chain': seq<Block>)
    requires Linked(head, chain)
    modifies chain
    ensures Linked(head', chain') && Texts(chain') == Texts(chain) + [text]
    ensures |chain'| == |chain| + 1 && chain'[..|chain|] == chain && fresh(chain'[|chain|])
  {
    var block := new Block(text);
    chain' := chain + [block];
    if head == null {
      head' := block;
    } else {
      var tmp := LastBlock(head, chain);
      tmp.next := block;
      head' := head;
      assert chain[0] == head;
    }
    assert forall i :: 0 <= i < |chain| ==> chain'[i] == chain[i];
  }

  /** Adds a line and cuts the list to its limit; a list of one line needs no cut. */
  method AddLine(head: Block?, ghost chain: seq<Block>, line: string) returns (head': Block?, ghost chain': seq<Block>)
    requires Linked(head, chain)
    modifies chain
    ensures Linked(head', chain') && Texts(chain') == Last(Texts(chain) + [line])
    ensures forall b :: b in chain' ==> b in chain || fresh(b)
  {
    head', chain' := Append(head, chain, line);
    assert forall b :: b in chain' ==> b in chain || b == chain'[|chain|];
    if head != null {
      head', chain' := Trim(head', chain');
    }
  }

  // ----- The lists of a player -----

  class Player {
    const npc: bool
    const history: array<Block?>
    ghost var chains: seq<seq<Block>>
    ghost var blocks: set<Block>

    ghost predicate Valid()
      reads this, history, blocks
    {
      && history.Length == NUM_HIST && |chains| == NUM_HIST
      && (forall c, b :: 0 <= c < NUM_HIST && b in chains[c] ==> b in blocks)
      && (forall c :: 0 <= c < NUM_HIST ==> Linked(history[c], chains[c]))
      && (forall c, d, b :: 0 <= c < d < NUM_HIST && b in chains[c] ==> b !in chains[d])
    }

    /** The texts of each channel. */
    ghost function Contents(): (s: seq<seq<string>>)
      reads this
      ensures |s| == |chains|
    {
      seq(|chains|, c requires 0 <= c < |chains| reads this => Texts(chains[c]))
    }

    constructor (npc: bool)
      ensures Valid() && this.npc == npc && Contents() == Kept([]) && fresh(history) && blocks == {}
    {
      this.npc := npc;
      history := new Block?[NUM_HIST](_ => null);
      chains, blocks := seq(NUM_HIST, c => []), {};
    }

    /** Adds a line to one channel and cuts the channel to its limit. */
    method AddTo(channel: nat, line: string)
      requires Valid() && channel < NUM_HIST
      modifies `chains, `blocks, history, blocks
      ensures Valid() && fresh(blocks - old(blocks))
      ensures Contents() == old(Contents())[channel := Last(old(Contents())[channel] + [line])]
    {
      ghost var was, lists := chains, history[..];
      var head;
      ghost var chain;
      head, chain := AddLine(history[channel], chains[channel], line);
      history[channel] := head;
      chains := was[channel := chain];
      blocks := blocks + set b | b in chain;
      forall c, i | 0 <= c < NUM_HIST && c != channel && 0 <= i < |was[c]|
        ensures was[c][i].next == At(was[c], i + 1)
      {
        assert old(Linked(history[c], chains[c]));
        assert was[c][i] in was[c] && was[c][i] !in was[channel];
        assert old(was[c][i].next) == At(was[c], i + 1);
      }
      assert forall c :: 0 <= c < NUM_HIST && c != channel ==> history[c] == lists[c] && chains[c] == was[c];
    }

    /** Adds a message to its channel and to the list of all; a monster keeps no history. */
    method AddHistory(m: Message)
      requires Valid() && IsMessage(m)
      modifies `chains, `blocks, history, blocks
      ensures Valid() && fresh(blocks - old(blocks))
      ensures Contents() == if npc then old(Contents()) else Step(old(Contents()), m)
      decreases m.channel != HIST_ALL
    {
      if npc {
        return;
      }
      AddTo(m.channel, Stamped(m.stamp, m.text));
      StepIsUpdates(old(Contents()), m);
      if m.channel != HIST_ALL {
        StepIsUpdates(Contents(), Message(HIST_ALL, m.text, m.allStamp, m.allStamp));
        AddHistory(Message(HIST_ALL, m.text, m.allStamp, m.allStamp));
      }
    }
  }
}
