/** The event list of a clock (src/kernel/time/timer.c:46-195). */
module TimerQueue {
  import opened Sequences

  datatype Event = Event(id: nat, expires: int)

  /** By expiry, and by creation where expiries are equal. */
  predicate InOrder(l: seq<Event>) {
    forall i, j | 0 <= i < j < |l| ::
      l[i].id != l[j].id && (l[i].expires < l[j].expires || (l[i].expires == l[j].expires && l[i].id < l[j].id))
  }

  predicate Older(l: seq<Event>, id: nat) {
    forall i | 0 <= i < |l| :: l[i].id < id
  }

  ghost predicate Monotone(clock: nat -> int) {
    forall i: nat, j: nat {:trigger clock(i), clock(j)} | i <= j :: clock(i) <= clock(j)
  }

  lemma InsertedInOrder(l: seq<Event>, k: nat, e: Event)
    requires InOrder(l) && Older(l, e.id) && k <= |l|
    requires (forall i | 0 <= i < k :: l[i].expires <= e.expires)
    requires (forall i | k <= i < |l| :: e.expires < l[i].expires)
    ensures InOrder(Inserted(l, k, e)) && Older(Inserted(l, k, e), e.id + 1)
  {
    var m := Inserted(l, k, e);
    assert forall i | 0 <= i < |m| :: m[i] == if i < k then l[i] else if i == k then e else l[i - 1];
    hide Inserted;
  }

  /** A prefix was fired, no event before its time, and nothing that had expired was left. */
  ghost predicate Handled(l: seq<Event>, fired: seq<Event>, rest: seq<Event>, clock: nat -> int) {
    && fired + rest == l
    && (forall i: nat | i < |fired| :: fired[i].expires <= clock(i))
    && (forall i | 0 <= i < |rest| :: clock(|fired|) < rest[i].expires)
    && (forall i | 0 <= i < |l| && l[i].expires <= clock(0) :: l[i] in fired)
  }

  /** What stopping at the first event that has not expired means for the whole list. */
  lemma ExpiredPrefix(l: seq<Event>, n: nat, clock: nat -> int)
    requires InOrder(l) && Monotone(clock) && n <= |l| && (n < |l| ==> clock(n) < l[n].expires)
    requires forall i: nat | i < n :: l[i].expires <= clock(i)
    ensures Handled(l, l[..n], l[n..], clock)
  {
    var fired, rest := l[..n], l[n..];
    assert clock(0) <= clock(n);
    forall i | n <= i < |l| ensures clock(n) < l[i].expires { LaterExpires(l, n, i); }
    hide InOrder, Monotone;
    assert forall i | 0 <= i < |rest| :: rest[i] == l[n + i];
    forall i | 0 <= i < |l| && l[i].expires <= clock(0) ensures l[i] in fired {
      assert fired[i] == l[i];
    }
  }

  lemma LaterExpires(l: seq<Event>, i: nat, j: nat)
    requires InOrder(l) && i <= j < |l|
    ensures l[i].expires <= l[j].expires
  {
  }

  lemma Suffix(l: seq<Event>, n: nat, id: nat)
    requires InOrder(l) && Older(l, id) && n <= |l|
    ensures InOrder(l[n..]) && Older(l[n..], id)
  {
  }

  lemma WithoutInOrder(l: seq<Event>, k: nat, id: nat)
    requires InOrder(l) && Older(l, id) && k < |l|
    ensures InOrder(Without(l, k)) && Older(Without(l, k), id)
    ensures forall i | 0 <= i < |Without(l, k)| :: Without(l, k)[i].id != l[k].id
  {
    var m := Without(l, k);
    assert forall i | 0 <= i < |m| :: m[i] == if i < k then l[i] else l[i + 1];
    hide Without;
  }

  class Timer {
    var events: seq<Event>
    var counter: nat
    var armed: seq<int>

    ghost predicate Valid()
      reads this
    {
      InOrder(events) && Older(events, counter)
    }

    constructor ()
      ensures Valid() && events == []
    {
      events, counter, armed := [], 0, [];
    }

    /** `setup_head_timer`: the device is asked to interrupt for the head. */
    method SetupHead()
      requires events != []
      modifies this`armed
      ensures armed == old(armed) + [events[0].expires]
    {
      armed := armed + [events[0].expires];
    }

    /**
     * `timer_create_event`: behind every event that expires no later; the device is armed when the new event is the
     * head.
     */
    method Create(t: int) returns (e: Event, ghost k: nat)
      requires Valid()
      modifies this
      ensures Valid() && e == Event(old(counter), t) && counter == old(counter) + 1
      ensures k <= |old(events)| && events == Inserted(old(events), k, e)
      ensures (forall i | 0 <= i < k :: old(events)[i].expires <= t)
      ensures (forall i | k <= i < |old(events)| :: t < old(events)[i].expires)
      ensures armed == old(armed) + if k == 0 then [t] else []
    {
      e := Event(counter, t);
      counter := counter + 1;
      var curr := 0;
      while curr < |events| && events[curr].expires <= t
        invariant 0 <= curr <= |events| && events == old(events) && armed == old(armed) && counter == old(counter) + 1
        invariant forall i | 0 <= i < curr :: events[i].expires <= t
      {
        curr := curr + 1;
      }
      k := curr;
      InsertedInOrder(events, curr, e);
      events := events[..curr] + [e] + events[curr..];
      assert events[0] == e <==> k == 0;
      hide InOrder, Older;
      if events[0] == e {
        SetupHead();
      }
    }

    /**
     * `handle_events`, where `clock(n)` is the n-th reading of the clock: the expired prefix is fired in order, each
     * event once and never before its time, and the device is armed for the head that remains.
     */
    method Handle(clock: nat -> int) returns (fired: seq<Event>)
      requires Valid() && Monotone(clock)
      modifies this
      ensures Valid() && counter == old(counter) && Handled(old(events), fired, events, clock)
      ensures armed == old(armed) + if events == [] then [] else [events[0].expires]
    {
      hide InOrder, Older, Monotone, Handled;
      var cur := 0;
      while cur < |events| && clock(cur) >= events[cur].expires
        invariant 0 <= cur <= |events|
        invariant forall i: nat | i < cur :: events[i].expires <= clock(i)
      {
        cur := cur + 1;
      }
      ExpiredPrefix(events, cur, clock);
      Suffix(events, cur, counter);
      fired := events[..cur];
      events := events[cur..];
      if events != [] {
        SetupHead();
      }
    }

    /**
     * `timer_cancel_event`; for an event that is not queued the source follows a null link, which is the outcome
     * `false`.
     */
    method Cancel(id: nat) returns (ok: bool, ghost k: nat)
      requires Valid()
      modifies this
      ensures Valid() && (ok <==> exists i :: 0 <= i < |old(events)| && old(events)[i].id == id)
      ensures !ok ==> events == old(events) && armed == old(armed)
      ensures ok ==> k < |old(events)| && old(events)[k].id == id && events == Without(old(events), k)
      ensures forall i | 0 <= i < |events| :: events[i].id != id
      ensures ok ==> armed == old(armed) + if k == 0 && events != [] then [events[0].expires] else []
    {
      var curr := 0;
      while curr < |events| && events[curr].id != id
        invariant 0 <= curr <= |events| && forall i | 0 <= i < curr :: events[i].id != id
      {
        curr := curr + 1;
      }
      k := 0;
      if curr == |events| {
        return false, k;
      }
      k := curr;
      WithoutInOrder(events, curr, counter);
      events := events[..curr] + events[curr + 1..];
      if curr == 0 && events != [] {
        SetupHead();
      }
      ok := true;
    }
  }
}
