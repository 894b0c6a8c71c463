/** The growing buffer of the "where" command (src/act.informative.c, append_where_output): text is appended, the
    capacity doubles when it does not suffice, and the first failure is final. */
module WhereOutput {
  const SIZE_MAX := 0xFFFF_FFFF_FFFF_FFFF
  const FIRST_CAPACITY := 4096

  // ----- The buffer as a value -----

  /** The text so far, the size of the memory behind it, whether an append failed, and how many characters were
      moved to larger memory up to now. */
  datatype Buffer = Buffer(text: string, capacity: nat, failed: bool, moved: nat)

  /** A text to append, whether it can be formatted, and whether larger memory is given if asked for. */
  datatype Request = Request(text: string, formats: bool, memory: bool)

  const EMPTY := Buffer("", 0, false, 0)

  /** The text and its terminator are within the memory, which a size can count. */
  predicate Sound(b: Buffer) {
    b.capacity <= SIZE_MAX && if b.capacity == 0 then b.text == "" else |b.text| < b.capacity
  }

  /** The memory asked for when the capacity does not suffice. */
  function Grown(capacity: nat, required: nat): (r: nat)
    requires 0 < capacity
    decreases if capacity < required then required - capacity else 0
  {
    if capacity >= required then capacity
    else if capacity > SIZE_MAX / 2 then required
    else Grown(capacity * 2, required)
  }

  function Capacity(b: Buffer, required: nat): nat {
    if required <= b.capacity then b.capacity
    else Grown(if b.capacity == 0 then FIRST_CAPACITY else b.capacity, required)
  }

  predicate Accepts(b: Buffer, r: Request) {
    && !b.failed && r.formats && |b.text| + |r.text| + 1 <= SIZE_MAX
    && (|b.text| + |r.text| + 1 <= b.capacity || r.memory)
  }

  function Step(b: Buffer, r: Request): Buffer {
    if !Accepts(b, r) then b.(failed := true)
    else Buffer(b.text + r.text, Capacity(b, |b.text| + |r.text| + 1), false,
                b.moved + if |b.text| + |r.text| + 1 <= b.capacity then 0 else |b.text|)
  }

  function Run(requests: seq<Request>): Buffer {
    if requests == [] then EMPTY else Step(Run(requests[..|requests| - 1]), requests[|requests| - 1])
  }

  function Joined(requests: seq<Request>): string {
    if requests == [] then "" else Joined(requests[..|requests| - 1]) + requests[|requests| - 1].text
  }

  /** The memory asked for suffices, can be counted, and is less than twice what is needed unless it is what was
      there; it is at least twice what was there unless that is more than a quarter of all memory. */
  lemma {:induction false} GrownIsEnough(capacity: nat, required: nat)
    requires 0 < capacity <= SIZE_MAX && required <= SIZE_MAX
    ensures required <= Grown(capacity, required) <= SIZE_MAX
    ensures Grown(capacity, required) == capacity || Grown(capacity, required) < 2 * required
    ensures capacity < required && capacity <= SIZE_MAX / 4 + 1 ==> 2 * capacity <= Grown(capacity, required)
    decreases if capacity < required then required - capacity else 0
  {
    if capacity < required && capacity <= SIZE_MAX / 2 {
      GrownIsEnough(capacity * 2, required);
      GrownIsMore(capacity * 2, required);
    }
  }

  lemma {:induction false} GrownIsMore(capacity: nat, required: nat)
    requires 0 < capacity
    ensures Grown(capacity, required) >= capacity
    decreases if capacity < required then required - capacity else 0
  {
    if capacity < required && capacity <= SIZE_MAX / 2 {
      GrownIsMore(capacity * 2, required);
    }
  }

  /** Over any run the text and its terminator are within the memory, which a size can count. */
  lemma {:induction false} RunIsSound(requests: seq<Request>)
    ensures Sound(Run(requests)) && Run(requests).capacity <= SIZE_MAX
    ensures Run(requests).text != "" || Run(requests).capacity > 0 ==>
              |Run(requests).text| + 1 <= Run(requests).capacity
  {
    if requests != [] {
      var before := requests[..|requests| - 1];
      RunIsSound(before);
      StepIsSound(Run(before), requests[|requests| - 1]);
    }
  }

  lemma StepIsSound(b: Buffer, r: Request)
    requires Sound(b)
    ensures Sound(Step(b, r))
  {
    var required := |b.text| + |r.text| + 1;
    if Accepts(b, r) && b.capacity < required {
      GrownIsEnough(if b.capacity == 0 then FIRST_CAPACITY else b.capacity, required);
    }
  }

  /** The buffer holds all texts up to the first request that was not accepted, and none of the later ones; it has
      failed exactly when there is such a request. */
  lemma {:induction false} HoldsUpToFailure(requests: seq<Request>) returns (k: nat)
    ensures k <= |requests| && Run(requests).text == Joined(requests[..k])
    ensures Run(requests).failed <==> k < |requests|
    ensures k < |requests| ==> !Run(requests[..k]).failed && !Accepts(Run(requests[..k]), requests[k])
  {
    if requests == [] {
      k := 0;
    } else {
      var n := |requests| - 1;
      var before := requests[..n];
      k := HoldsUpToFailure(before);
      assert before[..k] == requests[..k];
      if k == n && Accepts(Run(before), requests[n]) {
        k := n + 1;
        assert requests[..k] == requests && before[..n] == before;
      } else if k == n {
        assert before[..n] == before;
      }
    }
  }

  lemma {:induction false} PrefixIsShorter(requests: seq<Request>, k: nat)
    requires k <= |requests|
    ensures |Joined(requests[..k])| <= |Joined(requests)|
  {
    if k == |requests| {
      assert requests[..k] == requests;
    } else {
      PrefixIsShorter(requests[..|requests| - 1], k);
      assert requests[..|requests| - 1][..k] == requests[..k];
    }
  }

  /** A run fails only for one of three reasons: if every text can be formatted, memory is given whenever it is asked
      for, and a size can count all the texts together with a terminator, it does not fail and holds all of them. */
  lemma {:induction false} HoldsEverything(requests: seq<Request>)
    requires forall r :: r in requests ==> r.formats && r.memory
    requires |Joined(requests)| + 1 <= SIZE_MAX
    ensures !Run(requests).failed && Run(requests).text == Joined(requests)
  {
    if requests != [] {
      var n := |requests| - 1;
      PrefixIsShorter(requests, n);
      HoldsEverything(requests[..n]);
      assert requests[n] in requests;
    }
  }

  /** ... and the first request that meets one of them is where it fails. */
  lemma FailsThere(requests: seq<Request>, r: Request)
    requires !Run(requests).failed
    ensures var b := Run(requests);
            Run(requests + [r]).failed <==>
              !r.formats || |b.text| + |r.text| + 1 > SIZE_MAX || (!r.memory && |b.text| + |r.text| + 1 > b.capacity)
  {
    assert (requests + [r])[..|requests|] == requests;
  }

  /** Doubling pays off: over a whole run no more characters are moved than the last capacity, as long as that is
      no more than a quarter of all memory. */
  lemma {:induction false} MovesAreFew(requests: seq<Request>)
    ensures Run(requests).capacity <= SIZE_MAX / 4 + 1 ==> Run(requests).moved <= Run(requests).capacity
  {
    if requests != [] {
      var before, r := requests[..|requests| - 1], requests[|requests| - 1];
      MovesAreFew(before);
      RunIsSound(before);
      var b := Run(before);
      var required := |b.text| + |r.text| + 1;
      if Accepts(b, r) && b.capacity < required {
        GrownIsEnough(if b.capacity == 0 then FIRST_CAPACITY else b.capacity, required);
      }
    }
  }

  // ----- The buffer in memory -----

  class OutputBuffer {
    var data: array<char>
    var length: nat
    var failed: bool
    ghost var moved: nat

    ghost predicate Valid()
      reads this, data
    {
      && length <= data.Length && Sound(Value())
      && (data.Length > 0 ==> length < data.Length && data[length] == '\0')
    }

    ghost function Value(): Buffer
      reads this, data
      requires length <= data.Length
    {
      Buffer(data[..length], data.Length, failed, moved)
    }

    constructor ()
      ensures Valid() && Value() == EMPTY && fresh(data)
    {
      data, length, failed, moved := new char[0], 0, false, 0;
    }

    /** Moves the text to memory of another size. */
    method Resize(capacity: nat)
      requires length <= capacity && length <= data.Length
      modifies `data, `moved
      ensures data.Length == capacity && data[..length] == old(data[..length]) && fresh(data)
      ensures moved == old(moved) + length
    {
      var was := data[..length];
      data := new char[capacity](i requires 0 <= i < capacity => if i < |was| then was[i] else '\0');
      moved := moved + length;
    }

    /** Prints the text and its terminator behind what is there. */
    method Print(text: string)
      requires length + |text| < data.Length
      modifies `length, data
      ensures length == old(length) + |text| && data[..length] == old(data[..length]) + text && data[length] == '\0'
    {
      var from, end := length, length + |text|;
      for i := 0 to |text|
        invariant length == from && data[..from + i] == old(data[..length]) + text[..i]
      {
        data[from + i] := text[i];
      }
      assert text[..|text|] == text;
      length := end;
      data[end] := '\0';
    }

    method Append(r: Request) returns (ok: bool)
      requires Valid()
      modifies this, data
      ensures Valid() && (data == old(data) || fresh(data))
      ensures Value() == Step(old(Value()), r)
      ensures ok <==> Accepts(old(Value()), r)
      // there is a terminator behind the text
      ensures ok ==> length < data.Length && data[length] == '\0'
    {
      if failed {
        return false;
      }
      if !r.formats || |r.text| > SIZE_MAX - length - 1 {
        failed := true;
        return false;
      }
      ghost var was := Value();
      StepIsSound(was, r);
      var required := length + |r.text| + 1;
      if required > data.Length {
        var capacity := if data.Length == 0 then FIRST_CAPACITY else data.Length;
        ghost var first := capacity;
        while capacity < required
          invariant 0 < capacity && Grown(capacity, required) == Grown(first, required)
          decreases required - capacity
        {
          if capacity > SIZE_MAX / 2 {
            capacity := required;
            break;
          }
          capacity := capacity * 2;
        }
        if !r.memory {
          failed := true;
          return false;
        }
        Resize(capacity);
      }
      Print(r.text);
      return true;
    }
  }
}
