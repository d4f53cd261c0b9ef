/**
 * Terminals (src/kernel/io/term/term.c): bytes go to a device that may refuse any byte at any time, and wait in a
 * buffer until it takes them.
 */
module Terminal {
  import opened Descriptors
  import opened TermBuffer

  /** The bytes of a C string. */
  function CString(s: seq<char>): (r: seq<char>)
    ensures '\0' !in r && r <= s && (r == s || s[|r|] == '\0')
  {
    if s == [] || s[0] == '\0' then [] else [s[0]] + CString(s[1..])
  }

  /** How many of the next `n` bytes the device takes before it refuses one, from its `t`-th answer on. */
  function Run(ready: nat -> bool, t: nat, n: nat): (k: nat)
    ensures k <= n && (forall j: nat | t <= j < t + k :: ready(j)) && (k < n ==> !ready(t + k))
    decreases n
  {
    if n == 0 || !ready(t) then 0 else 1 + Run(ready, t + 1, n - 1)
  }

  lemma {:induction false} RunStep(ready: nat -> bool, t: nat, n: nat, k: nat)
    requires k <= n && forall j: nat | t <= j < t + k :: ready(j)
    requires k == n || !ready(t + k)
    ensures Run(ready, t, n) == k
    decreases k
  {
    if k > 0 { RunStep(ready, t + 1, n - 1, k - 1); }
  }

  /** How many of the answers from `t` to `end` are ready ones. */
  function Readies(ready: nat -> bool, t: nat, end: nat): nat
    decreases end - t
  {
    if t >= end then 0 else (if ready(t) then 1 else 0) + Readies(ready, t + 1, end)
  }

  lemma {:induction false} ReadiesSplit(ready: nat -> bool, t: nat, mid: nat, end: nat)
    requires t <= mid <= end
    ensures Readies(ready, t, end) == Readies(ready, t, mid) + Readies(ready, mid, end)
    decreases mid - t
  {
    if t < mid { ReadiesSplit(ready, t + 1, mid, end); }
  }

  lemma {:induction false} ReadiesRun(ready: nat -> bool, t: nat, k: nat)
    requires forall j: nat | t <= j < t + k :: ready(j)
    ensures Readies(ready, t, t + k) == k
    decreases k
  {
    if k > 0 { ReadiesRun(ready, t + 1, k - 1); }
  }

  lemma {:induction false} ReadiesFew(ready: nat -> bool, t: nat, end: nat)
    ensures Readies(ready, t, end) <= if t <= end then end - t else 0
    decreases end - t
  {
    if t < end { ReadiesFew(ready, t + 1, end); }
  }

  /** A byte leaves a terminal to its device, or to the reader of `term_remove_head`. */
  datatype Sent = ToDevice(c: char) | ToReader(c: char)

  function Chars(s: seq<Sent>): seq<char> {
    seq(|s|, i requires 0 <= i < |s| => s[i].c)
  }

  function Device(s: seq<char>): seq<Sent> {
    seq(|s|, i requires 0 <= i < |s| => ToDevice(s[i]))
  }

  function Reader(s: seq<char>): seq<Sent> {
    seq(|s|, i requires 0 <= i < |s| => ToReader(s[i]))
  }

  lemma DeviceSplit(s: seq<char>, i: nat, j: nat)
    requires i <= j <= |s|
    ensures Device(s[..i]) + Device(s[i..][..j - i]) == Device(s[..j]) && s[i..][j - i..] == s[j..]
    ensures Device(s[..0]) == []
  {
  }

  lemma DeviceStep(s: seq<char>, i: nat)
    requires i < |s|
    ensures Device(s[..i + 1]) == Device(s[..i]) + [ToDevice(s[i])] && s[i..][0] == s[i] && s[i..][1..] == s[i + 1..]
  {
  }

  /** What leaves from the front of what waits keeps the account. */
  lemma AccountMoved(sent: seq<Sent>, waiting: seq<char>, k: nat)
    requires k <= |waiting|
    ensures Chars(sent + Device(waiting[..k])) + waiting[k..] == Chars(sent) + waiting
    ensures Chars(sent + Reader(waiting[..k])) + waiting[k..] == Chars(sent) + waiting
  {
  }

  /** What is printed goes to the device as far as it takes it, and waits from there on. */
  lemma AccountPrinted(sent: seq<Sent>, waiting: seq<char>, s: seq<char>, k: nat)
    requires k <= |s| && (waiting != [] ==> k == 0)
    ensures Chars(sent + Device(s[..k])) + (waiting + s[k..]) == Chars(sent) + waiting + s
  {
    if waiting == [] { AccountMoved(sent, s, k); }
  }

  datatype Call =
    | CallChar(c: char) | CallString(s: seq<char>) | CallSlice(s: seq<char>) | CallReady | CallRemove(n: nat)

  function Printed(x: Call): seq<char> {
    match x
    case CallChar(c) => [c]
    case CallString(s) => CString(s)
    case CallSlice(s) => s
    case _ => []
  }

  function PrintedBy(calls: seq<Call>): seq<char> {
    if calls == [] then [] else PrintedBy(calls[..|calls| - 1]) + Printed(calls[|calls| - 1])
  }

  lemma PrintedStep(calls: seq<Call>, i: nat)
    requires i < |calls|
    ensures PrintedBy(calls[..i + 1]) == PrintedBy(calls[..i]) + Printed(calls[i])
  {
    assert calls[..i + 1][..i] == calls[..i];
  }

  predicate OnlyToDevice(from: seq<Sent>, to: seq<Sent>) {
    from <= to && forall i | |from| <= i < |to| :: to[i].ToDevice?
  }

  /** `k` of the bytes that waited have been sent, with as many ready answers. */
  ghost predicate Flushing(ready: nat -> bool, sent0: seq<Sent>, waiting: seq<char>, t0: nat, end: nat, k: nat,
                           sent: seq<Sent>, rest: seq<char>, t: nat)
  {
    && k <= |waiting| && rest == waiting[k..] && sent == sent0 + Device(waiting[..k])
    && t0 <= t && Readies(ready, t0, t) == k && Readies(ready, t, end) >= |waiting| - k
  }

  lemma RoundAnswers(ready: nat -> bool, t0: nat, t: nat, r: nat, t': nat, end: nat, n: nat)
    requires t0 <= t && r == Run(ready, t, n) && t' == t + r + (if r < n then 1 else 0) && Readies(ready, t, end) >= n
    ensures Readies(ready, t0, t') == Readies(ready, t0, t) + r && Readies(ready, t', end) >= n - r
    ensures r < n ==> t < end
  {
    ReadiesRun(ready, t, r);
    ReadiesFew(ready, t, end);
    ReadiesSplit(ready, t, t + r, t');
    ReadiesSplit(ready, t0, t, t');
    if t' <= end { ReadiesSplit(ready, t, t', end); }
  }

  /** A round asks for all that waits, from the `t`-th answer on, and the device takes `r` bytes of it. */
  lemma FlushRound(ready: nat -> bool, sent0: seq<Sent>, waiting: seq<char>, t0: nat, end: nat, k: nat, sent: seq<Sent>,
                   rest: seq<char>, t: nat, r: nat, t': nat)
    requires Flushing(ready, sent0, waiting, t0, end, k, sent, rest, t)
    requires r == Run(ready, t, |rest|) && t' == t + r + if r < |rest| then 1 else 0
    ensures Flushing(ready, sent0, waiting, t0, end, k + r, sent + Device(rest[..r]), rest[r..], t')
    ensures rest[r..] != [] ==> t < end && t < t'
  {
    hide Device, Readies, Run;
    DeviceSplit(waiting, k, k + r);
    RoundAnswers(ready, t0, t, r, t', end, |rest|);
    assert sent0 + Device(waiting[..k]) + Device(rest[..r]) == sent0 + Device(waiting[..k + r]);
  }

  lemma Flushed(ready: nat -> bool, sent0: seq<Sent>, waiting: seq<char>, t0: nat, end: nat, k: nat, sent: seq<Sent>,
                t: nat)
    requires Flushing(ready, sent0, waiting, t0, end, k, sent, [], t)
    ensures sent == sent0 + Device(waiting) && t0 <= t && Readies(ready, t0, t) == |waiting|
  {
    assert waiting[..k] == waiting;
  }

  class Term {
    const ready: nat -> bool
    const buffer: Buffer
    var tries: nat
    ghost var sent: seq<Sent>
    ghost var printed: seq<char>

    /** What has left, followed by what waits, is what was printed, in order. */
    ghost predicate Valid()
      reads this, buffer, Arrays(buffer.chunks)
    {
      buffer.Valid() && Chars(sent) + buffer.Contents() == printed
    }

    /** `term_new`, with a device whose answers are given. */
    constructor (answers: nat -> bool)
      ensures Valid() && ready == answers && tries == 0 && printed == [] && sent == [] && fresh(buffer)
      ensures buffer.chunks == []
    {
      ready, tries, sent, printed := answers, 0, [], [];
      buffer := new Buffer();
      new;
      hide Flat, ChunksOk, Total;
    }

    /** `out_`: the device's next answer. */
    method Offer(c: char) returns (taken: bool)
      modifies this`tries, this`sent
      ensures tries == old(tries) + 1 && taken == ready(old(tries))
      ensures sent == old(sent) + if taken then [ToDevice(c)] else []
    {
      taken := ready(tries);
      tries := tries + 1;
      if taken { sent := sent + [ToDevice(c)]; }
    }

    /** Bytes that the device did not take. */
    method Keep(s: seq<char>)
      requires buffer.Valid()
      modifies buffer, Arrays(buffer.chunks)
      ensures buffer.Valid() && fresh(Arrays(buffer.chunks) - old(Arrays(buffer.chunks)))
      ensures buffer.Contents() == old(buffer.Contents()) + s
    {
      ghost var before := buffer.Contents();
      for i := 0 to |s|
        invariant buffer.Valid() && fresh(Arrays(buffer.chunks) - old(Arrays(buffer.chunks)))
        invariant buffer.Contents() == before + s[..i]
      {
        var _ := buffer.Push(s[i]);
        assert s[..i + 1] == s[..i] + [s[i]];
      }
      assert s[..|s|] == s;
    }

    /** The bytes that the device takes up to its first refusal. */
    method Feed(s: seq<char>) returns (k: nat)
      modifies this`tries, this`sent
      ensures k == Run(ready, old(tries), |s|) && sent == old(sent) + Device(s[..k])
      ensures tries == old(tries) + k + if k < |s| then 1 else 0
    {
      ghost var sent0, tries0 := sent, tries;
      k := 0;
      while k < |s|
        invariant k <= |s| && tries == tries0 + k && sent == sent0 + Device(s[..k])
        invariant forall j: nat | tries0 <= j < tries0 + k :: ready(j)
      {
        var taken := Offer(s[k]);
        if !taken { break; }
        DeviceStep(s, k);
        k := k + 1;
      }
      RunStep(ready, tries0, |s|, k);
    }

    /**
     * `term_print_slice`. The device is asked only when nothing waits, and until its first refusal. The result is to
     * say whether nothing waits; of an empty slice it says so in any case.
     */
    method PrintSlice(s: seq<char>) returns (finished: bool)
      requires Valid()
      modifies this`tries, this`sent, this`printed, buffer, Arrays(buffer.chunks)
      ensures Valid() && fresh(Arrays(buffer.chunks) - old(Arrays(buffer.chunks))) && Prints(s)
      ensures finished <==> buffer.Contents() == [] || s == []
    {
      hide Chars, Flat, ChunksOk, Total;
      ghost var sent0, waiting := sent, buffer.Contents();
      var i := 0;
      if buffer.size == 0 { i := Feed(s); }
      finished := !(i < |s|);
      Keep(s[i..]);
      AccountPrinted(sent0, waiting, s, i);
      printed := printed + s;
    }

    /** What a print does: the bytes reach the device in order, or wait behind all others. */
    twostate predicate Prints(s: seq<char>)
      requires old(buffer.Valid())
      reads this, buffer
    {
      var k := if old(buffer.Contents()) == [] then Run(ready, old(tries), |s|) else 0;
      && printed == old(printed) + s && sent == old(sent) + Device(s[..k])
      && tries == old(tries) + k + (if old(buffer.Contents()) == [] && k < |s| then 1 else 0)
      && buffer.Contents() == old(buffer.Contents()) + s[k..]
    }

    /** `term_prints`. */
    method PrintString(s: seq<char>) returns (finished: bool)
      requires Valid() && '\0' in s
      modifies this`tries, this`sent, this`printed, buffer, Arrays(buffer.chunks)
      ensures Valid() && fresh(Arrays(buffer.chunks) - old(Arrays(buffer.chunks))) && Prints(CString(s))
      ensures finished <==> buffer.Contents() == []
    {
      hide Chars, Device, Flat, ChunksOk, Total, Run, CString;
      ghost var sent0, waiting := sent, buffer.Contents();
      var text := CString(s);
      DeviceSplit(text, 0, 0);
      var i := 0;
      if buffer.size == 0 {
        i := Feed(text);
        finished := i == |text|;
      } else {
        finished := false;
      }
      Keep(text[i..]);
      AccountPrinted(sent0, waiting, text, i);
      printed := printed + text;
    }

    /** `term_printc`. */
    method PrintChar(c: char) returns (finished: bool)
      requires Valid()
      modifies this`tries, this`sent, this`printed, buffer, Arrays(buffer.chunks)
      ensures Valid() && fresh(Arrays(buffer.chunks) - old(Arrays(buffer.chunks))) && Prints([c])
      ensures finished <==> buffer.Contents() == []
    {
      printed := printed + [c];
      if buffer.size == 0 {
        RunStep(ready, tries, 1, if ready(tries) then 1 else 0);
        var taken := Offer(c);
        if taken {
          return true;
        }
      }
      var _ := buffer.Push(c);
      finished := false;
    }

    /** The first byte that waits is offered, and popped if it is taken. */
    method OfferHead() returns (taken: bool)
      requires Valid() && buffer.Contents() != []
      modifies this`tries, this`sent, buffer
      ensures Valid() && Arrays(buffer.chunks) <= old(Arrays(buffer.chunks))
      ensures tries == old(tries) + 1 && taken == ready(old(tries))
      ensures var waiting := old(buffer.Contents());
              && buffer.Contents() == (if taken then waiting[1..] else waiting)
              && sent == old(sent) + if taken then [ToDevice(waiting[0])] else []
    {
      hide Chars, Flat, ChunksOk, Total;
      ghost var sent0, waiting := sent, buffer.Contents();
      var _, c := buffer.Peek();
      taken := Offer(c);
      if taken {
        var _, _ := buffer.Pop();
        AccountMoved(sent0, waiting, 1);
        assert sent == sent0 + Device(waiting[..1]);
      } else {
        assert sent == sent0;
      }
    }

    /** `term_notify_ready`: what waits goes to the device up to its first refusal. */
    method NotifyReady() returns (finished: bool)
      requires Valid()
      modifies this`tries, this`sent, buffer
      ensures Valid() && Arrays(buffer.chunks) <= old(Arrays(buffer.chunks))
      ensures finished <==> buffer.Contents() == []
      ensures var waiting := old(buffer.Contents());
              var k := Run(ready, old(tries), |waiting|);
              && buffer.Contents() == waiting[k..] && sent == old(sent) + Device(waiting[..k])
              && tries == old(tries) + k + if k < |waiting| then 1 else 0
    {
      hide Chars, Device, Flat, ChunksOk, Total, Run;
      ghost var waiting, sent0, tries0 := buffer.Contents(), sent, tries;
      ghost var k: nat := 0;
      DeviceSplit(waiting, 0, 0);
      var taken := true;
      while taken && buffer.size != 0
        invariant Valid() && Arrays(buffer.chunks) <= old(Arrays(buffer.chunks))
        invariant k <= |waiting| && buffer.Contents() == waiting[k..]
        invariant sent == sent0 + Device(waiting[..k]) && tries == tries0 + k + if taken then 0 else 1
        invariant forall j: nat | tries0 <= j < tries0 + k :: ready(j)
        invariant !taken ==> k < |waiting| && !ready(tries0 + k)
        decreases |waiting| - k, taken
      {
        taken := OfferHead();
        if taken {
          DeviceStep(waiting, k);
          k := k + 1;
        }
      }
      RunStep(ready, tries0, |waiting|, k);
      finished := buffer.size == 0;
    }

    /**
     * `term_flush`. It ends exactly when the device's answers up to some point hold a ready one for each waiting byte,
     * and uses up no more of them.
     */
    method Flush(ghost end: nat)
      requires Valid() && Readies(ready, tries, end) >= |buffer.Contents()|
      modifies this`tries, this`sent, buffer
      ensures Valid() && buffer.Contents() == [] && sent == old(sent) + Device(old(buffer.Contents()))
      ensures tries >= old(tries) && Readies(ready, old(tries), tries) == |old(buffer.Contents())|
    {
      ghost var waiting, sent0, tries0 := buffer.Contents(), sent, tries;
      hide Chars, Device, Flat, ChunksOk, Total, Run, Readies;
      assert Flushing(ready, sent, waiting, tries, end, 0, sent, waiting, tries) by {
        DeviceSplit(waiting, 0, 0);
        ReadiesFew(ready, tries, tries);
      }
      hide Flushing;
      ghost var k: nat := 0;
      var finished := false;
      while !finished
        invariant Valid() && Arrays(buffer.chunks) <= old(Arrays(buffer.chunks))
        invariant finished ==> buffer.Contents() == []
        invariant Flushing(ready, sent0, waiting, tries0, end, k, sent, buffer.Contents(), tries)
        decreases !finished, end - tries
      {
        ghost var t, sent1, rest := tries, sent, buffer.Contents();
        finished := NotifyReady();
        ghost var r := Run(ready, t, |rest|);
        FlushRound(ready, sent0, waiting, tries0, end, k, sent1, rest, t, r, tries);
        k := k + r;
      }
      Flushed(ready, sent0, waiting, tries0, end, k, sent, tries);
    }

    /** `term_remove_head`. */
    method RemoveHead(out: array<char>, count: nat) returns (popped: nat)
      requires Valid() && count <= out.Length && out !in Arrays(buffer.chunks)
      modifies this`sent, buffer, out
      ensures Valid() && Arrays(buffer.chunks) <= old(Arrays(buffer.chunks)) && tries == old(tries)
      ensures popped == if count <= |old(buffer.Contents())| then count else |old(buffer.Contents())|
      ensures out[..popped] == old(buffer.Contents())[..popped] && out[popped..] == old(out[popped..])
      ensures buffer.Contents() == old(buffer.Contents())[popped..] && sent == old(sent) + Reader(out[..popped])
    {
      popped := buffer.PopMany(count, out);
      sent := sent + Reader(out[..popped]);
    }

    /** Any one call. */
    method Do(x: Call)
      requires Valid() && (x.CallString? ==> '\0' in x.s)
      modifies this`tries, this`sent, this`printed, buffer, Arrays(buffer.chunks)
      ensures Valid() && fresh(Arrays(buffer.chunks) - old(Arrays(buffer.chunks)))
      ensures printed == old(printed) + Printed(x)
      ensures !x.CallRemove? ==> OnlyToDevice(old(sent), sent)
    {
      hide Chars, CString, Run, Flat, ChunksOk, Total;
      match x
      case CallChar(c) => var _ := PrintChar(c);
      case CallString(s) => var _ := PrintString(s);
      case CallSlice(s) => var _ := PrintSlice(s);
      case CallReady => var _ := NotifyReady();
      case CallRemove(n) =>
        var out := new char[n];
        var _ := RemoveHead(out, n);
    }

    /**
     * Every run of prints, notifications and removals: what has left, followed by what waits, is what the calls
     * printed, in order. Without removals all of what has left was taken by the device.
     */
    method Calls(calls: seq<Call>)
      requires Valid() && forall x | x in calls && x.CallString? :: '\0' in x.s
      modifies this`tries, this`sent, this`printed, buffer, Arrays(buffer.chunks)
      ensures Valid() && Chars(sent) + buffer.Contents() == old(printed) + PrintedBy(calls)
      ensures (forall x | x in calls :: !x.CallRemove?) ==> OnlyToDevice(old(sent), sent)
    {
      hide Chars, Printed, Flat, ChunksOk, Total;
      for i := 0 to |calls|
        invariant Valid() && fresh(Arrays(buffer.chunks) - old(Arrays(buffer.chunks)))
        invariant printed == old(printed) + PrintedBy(calls[..i])
        invariant (forall x | x in calls :: !x.CallRemove?) ==> OnlyToDevice(old(sent), sent)
      {
        PrintedStep(calls, i);
        assert calls[i] in calls;
        Do(calls[i]);
      }
      assert calls[..|calls|] == calls;
    }
  }
}
