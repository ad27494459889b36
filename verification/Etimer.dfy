/**
 os/sys/etimer.c: the list of pending event timers, polled until no post succeeds any more. Whether a post
 succeeds is up to the process scheduler; every post is recorded.
 */
module Etimer {
  import opened ClockTime
  import opened Lists

  /** PROCESS_NONE. */
  const NO_PROCESS: nat := 0

  // ----- posts -----

  datatype Post<T> = Post(timer: T, process: nat, ok: bool)

  function Gone<T(==)>(log: seq<Post<T>>): set<T> {
    set p | p in log && p.ok :: p.timer
  }

  ghost predicate Posted<T>(log: seq<Post<T>>, t: T) {
    exists p :: p in log && p.timer == t
  }

  /** A timer whose post was accepted is not posted again. */
  ghost predicate AcceptedOnce<T>(log: seq<Post<T>>) {
    forall i, j | 0 <= i < j < |log| && log[i].ok :: log[j].timer != log[i].timer
  }

  /** An expired timer is posted to the process that it belongs to. */
  ghost predicate Rightly<T>(p: Post<T>, due: map<T, nat>) {
    p.timer in due && p.process == due[p.timer]
  }

  /** What a poll does: it posts expired timers only, takes off the list those whose post was accepted, keeping
      the order of the rest, and leaves no expired timer that was not posted and refused. */
  ghost predicate Polled<T>(before: seq<T>, after: seq<T>, due: map<T, nat>, log: seq<Post<T>>) {
    && after == Without(before, Gone(log))
    && (forall p | p in log :: p.timer in before && Rightly(p, due))
    && AcceptedOnce(log)
    && (forall t | t in after && t in due :: Posted(log, t))
  }

  /** So far: as above, but expired timers may be left. */
  ghost predicate PolledSoFar<T>(before: seq<T>, after: seq<T>, due: map<T, nat>, log: seq<Post<T>>) {
    && after == Without(before, Gone(log))
    && (forall p | p in log :: p.timer in before && Rightly(p, due))
    && AcceptedOnce(log)
  }

  /** Refused posts change nothing. */
  ghost predicate Refused<T>(log: seq<Post<T>>, items: seq<T>, due: map<T, nat>) {
    forall p | p in log :: !p.ok && p.timer in items && Rightly(p, due)
  }

  lemma RefusedKeeps<T>(before: seq<T>, after: seq<T>, due: map<T, nat>, log: seq<Post<T>>, more: seq<Post<T>>)
    requires PolledSoFar(before, after, due, log) && Refused(more, after, due)
    ensures PolledSoFar(before, after, due, log + more)
  {
    WithoutMembers(before, Gone(log));
    assert Gone(log + more) == Gone(log);
    var all := log + more;
    forall i, j | 0 <= i < j < |all| && all[i].ok
      ensures all[j].timer != all[i].timer
    {
      if j >= |log| {
        assert all[j] in more && all[i] in log;
        assert all[i].timer in Gone(log);
      }
    }
  }

  /** An accepted post takes its timer off. */
  lemma AcceptedTakesOff<T>(before: seq<T>, after: seq<T>, due: map<T, nat>, log: seq<Post<T>>, k: nat, process: nat)
    requires PolledSoFar(before, after, due, log) && k < |after| && Distinct(after)
    requires after[k] in due && process == due[after[k]]
    ensures PolledSoFar(before, Removed(after, k), due, log + [Post(after[k], process, true)])
  {
    var t := after[k];
    var all := log + [Post(t, process, true)];
    assert all[|log|] in all;
    WithoutMembers(before, Gone(log));
    assert Gone(all) == Gone(log) + {t};
    WithoutTwice(before, Gone(log), {t});
    WithoutOne(after, k);
    forall i, j | 0 <= i < j < |all| && all[i].ok
      ensures all[j].timer != all[i].timer
    {
      assert all[i] in log;
      assert all[i].timer in Gone(log) && t in after;
    }
  }

  lemma AcceptedPost<T>(before: seq<T>, after: seq<T>, due: map<T, nat>, log: seq<Post<T>>,
                        more: seq<Post<T>>, k: nat, process: nat)
    requires PolledSoFar(before, after, due, log) && Refused(more, after, due)
    requires k < |after| && after[k] in due && process == due[after[k]] && Distinct(after)
    ensures PolledSoFar(before, Removed(after, k), due, log + more + [Post(after[k], process, true)])
  {
    RefusedKeeps(before, after, due, log, more);
    AcceptedTakesOff(before, after, due, log + more, k, process);
  }

  /** After a pass without an accepted post the poll is complete. */
  lemma PollComplete<T>(before: seq<T>, after: seq<T>, due: map<T, nat>, log: seq<Post<T>>, more: seq<Post<T>>)
    requires PolledSoFar(before, after, due, log) && Refused(more, after, due)
    requires forall t | t in after && t in due :: Posted(more, t)
    ensures Polled(before, after, due, log + more)
  {
    RefusedKeeps(before, after, due, log, more);
    forall t | t in after && t in due
      ensures Posted(log + more, t)
    {
      var p :| p in more && p.timer == t;
      assert p in log + more;
    }
  }

  ghost predicate OnlyAccepted<T>(log: seq<Post<T>>, t: T, i: int) {
    && 0 <= i < |log| && log[i].timer == t && log[i].ok
    && forall j | 0 <= j < |log| && log[j].timer == t && log[j].ok :: j == i
  }

  /** In a complete poll, a timer left on the list had each of its posts refused, and one that left it had
      exactly one accepted. */
  lemma PollOutcome<T>(before: seq<T>, after: seq<T>, due: map<T, nat>, log: seq<Post<T>>, t: T)
    requires Polled(before, after, due, log) && t in before
    ensures t in after <==> forall p | p in log && p.timer == t :: !p.ok
    ensures t in after && t in due ==> Posted(log, t)
    ensures t !in after ==> t in due && exists i :: OnlyAccepted(log, t, i)
  {
    WithoutMembers(before, Gone(log));
    if t !in after {
      var p :| p in log && p.ok && p.timer == t;
      var i :| 0 <= i < |log| && log[i] == p;
      assert OnlyAccepted(log, t, i);
    }
  }

  // ----- the code -----

  class ETimer {
    var start: nat
    var interval: nat
    var p: nat
    var next: ETimer?

    constructor ()
      ensures start < RANGE && interval < RANGE && p == NO_PROCESS
    {
      Ranges();
      start, interval, p, next := 0, 0, NO_PROCESS, null;
    }
  }

  function NextOf(items: seq<ETimer>, i: nat): ETimer? {
    if i < |items| then items[i] else null
  }

  function Nodes(items: seq<ETimer>): set<ETimer> {
    set x | x in items
  }

  ghost predicate LinkAt(items: seq<ETimer>, i: int)
    requires 0 <= i < |items|
    reads items
  {
    items[i].next == NextOf(items, i + 1)
  }

  ghost predicate Linked(head: ETimer?, items: seq<ETimer>)
    reads items
  {
    head == NextOf(items, 0) && forall i {:trigger LinkAt(items, i)} | 0 <= i < |items| :: LinkAt(items, i)
  }

  /** etimer_expiration_time. */
  function ExpirationTime(t: ETimer): int
    reads t
  {
    Plus(t.start, t.interval)
  }

  /** How far ahead of now the expiration is, going round. */
  function Distance(t: ETimer, now: nat): int
    reads t
  {
    Minus(ExpirationTime(t), now)
  }

  ghost function Distances(items: seq<ETimer>, now: nat): (ds: seq<int>)
    reads items
    ensures |ds| == |items| && forall i | 0 <= i < |items| :: ds[i] == Distance(items[i], now)
  {
    seq(|items|, i requires 0 <= i < |items| reads items => Distance(items[i], now))
  }

  ghost predicate LeastUpTo(ds: seq<int>, n: nat, least: int) {
    n <= |ds| && forall i | 0 <= i < n :: least <= ds[i]
  }

  lemma LeastNext(ds: seq<int>, n: nat, least: int)
    requires n < |ds| && LeastUpTo(ds, n, least)
    ensures LeastUpTo(ds, n + 1, if ds[n] < least then ds[n] else least)
  {
  }

  /** next_expiration is the expiration time that is nearest ahead. */
  ghost predicate Nearest(items: seq<ETimer>, next: int, now: nat)
    reads items
  {
    if items == [] then next == 0
    else && (exists t :: t in items && ExpirationTime(t) == next)
         && (forall t | t in items :: Minus(next, now) <= Distance(t, now))
  }

  // ----- expiration and expiry -----

  /** c is the first clock reading, from the start on, at which the timer counts as expired. */
  ghost predicate FirstExpired(start: nat, interval: nat, c: int) {
    && 0 <= c < RANGE && Expired(start, interval, c)
    && forall d: nat | d < RANGE && Minus(d, start) < Minus(c, start) :: !Expired(start, interval, d)
  }

  /** A timer that has expired first did so at its start plus its interval, going round. */
  lemma ExpiredFirst(start: nat, interval: nat, now: nat)
    requires start < RANGE && interval < RANGE && now < RANGE && Expired(start, interval, now)
    ensures FirstExpired(start, interval, Plus(start, interval))
  {
  }

  /** The comparison never finds the longest interval expired, and finds every other one expired at its end. */
  lemma LongestNeverExpires(start: nat, interval: nat)
    requires start < RANGE && interval < RANGE
    ensures (forall d: nat | d < RANGE :: !Expired(start, interval, d)) <==> interval == CLOCK_MAX
    ensures interval < CLOCK_MAX <==> Expired(start, interval, Plus(start, interval))
  {
    if interval < CLOCK_MAX {
      assert Expired(start, interval, Plus(start, interval));
    }
  }

  /** A timer that has not expired at `now` does not do so before its end is reached. */
  lemma NotBeforeEnd(start: nat, interval: nat, now: nat, d: nat)
    requires start < RANGE && interval < RANGE && now < RANGE && d < RANGE && !Expired(start, interval, now)
    ensures Minus(d, now) < Minus(Plus(start, interval), now) ==> !Expired(start, interval, d)
  {
  }

  /** From `now` until next_expiration no timer of the list counts as expired, and at next_expiration one does, unless
      those that end then all have the longest interval. */
  ghost predicate WakesInTime(items: seq<ETimer>, next: int, now: nat)
    reads items
  {
    && 0 <= next < RANGE
    && (forall t, d: nat | t in items && d < RANGE && Minus(d, now) < Minus(next, now) ::
          !Expired(t.start, t.interval, d))
    && ((exists t :: t in items && Expired(t.start, t.interval, next))
         <==> exists t :: t in items && t.interval < CLOCK_MAX && Plus(t.start, t.interval) == next)
    && ((forall t | t in items :: t.interval < CLOCK_MAX)
         ==> exists t :: t in items && Expired(t.start, t.interval, next))
  }

  ghost predicate NoneExpired(items: seq<ETimer>, now: nat)
    reads items
  {
    forall t | t in items :: !Expired(t.start, t.interval, now)
  }

  /** As long as no timer of the list has expired, next_expiration is when the first one will. */
  lemma NearestWakes(items: seq<ETimer>, next: int, now: nat)
    requires items != [] && now < RANGE && Nearest(items, next, now) && NoneExpired(items, now)
    requires forall t | t in items :: t.start < RANGE && t.interval < RANGE
    ensures WakesInTime(items, next, now)
  {
    forall t, d: nat | t in items && d < RANGE && Minus(d, now) < Minus(next, now)
      ensures !Expired(t.start, t.interval, d)
    {
      NotBeforeEnd(t.start, t.interval, now, d);
    }
    forall t | t in items
      ensures Expired(t.start, t.interval, next) <==> t.interval < CLOCK_MAX && Plus(t.start, t.interval) == next
    {
      ExpiredAtEnd(t.start, t.interval, now, next);
    }
    var x :| x in items && ExpirationTime(x) == next;
    assert x.interval < CLOCK_MAX ==> Expired(x.start, x.interval, next);
  }

  lemma ExpiredAtEnd(start: nat, interval: nat, now: nat, next: int)
    requires start < RANGE && interval < RANGE && now < RANGE && 0 <= next < RANGE && !Expired(start, interval, now)
    requires Minus(next, now) <= Minus(Plus(start, interval), now)
    ensures Expired(start, interval, next) <==> interval < CLOCK_MAX && Plus(start, interval) == next
  {
  }

  /** The timer was armed at the time `armed`, less than a turn of the clock ago, and is not yet due. */
  ghost predicate Running(t: ETimer, armed: nat, now: nat)
    reads t
  {
    t.start == Clock(armed) && t.interval < RANGE && armed <= now < armed + t.interval
  }

  /** x is due before any other timer of the list. */
  ghost predicate FirstDue(x: ETimer, items: seq<ETimer>, armed: map<ETimer, nat>)
    requires forall t | t in items :: t in armed
    reads items
  {
    x in items && forall t | t in items :: armed[x] + x.interval <= armed[t] + t.interval
  }

  /** In unbounded time: next_expiration is the clock reading at the time when the first timer of the list is due. */
  lemma NearestIsFirstDue(items: seq<ETimer>, armed: map<ETimer, nat>, next: int, now: nat) returns (x: ETimer)
    requires items != [] && Nearest(items, next, Clock(now))
    requires forall t | t in items :: t in armed && Running(t, armed[t], now)
    ensures FirstDue(x, items, armed) && next == Clock(armed[x] + x.interval)
  {
    x :| x in items && ExpirationTime(x) == next;
    forall t | t in items
      ensures armed[x] + x.interval <= armed[t] + t.interval
    {
      assert Distance(x, Clock(now)) <= Distance(t, Clock(now));
      DueOrder(x, armed[x], t, armed[t], now);
    }
    DueAhead(x, armed[x], now);
  }

  /** Of two timers the one whose end is nearer, going round, is due first. */
  lemma DueOrder(x: ETimer, armed: nat, t: ETimer, armed1: nat, now: nat)
    requires Running(x, armed, now) && Running(t, armed1, now) && Distance(x, Clock(now)) <= Distance(t, Clock(now))
    ensures armed + x.interval <= armed1 + t.interval
  {
    DueAhead(x, armed, now);
    DueAhead(t, armed1, now);
  }

  lemma DueAhead(t: ETimer, armed: nat, now: nat)
    requires Running(t, armed, now)
    ensures ExpirationTime(t) == Clock(armed + t.interval) && Distance(t, Clock(now)) == armed + t.interval - now
  {
    Ranges();
    PlusClock(armed, t.interval);
    MinusClock(armed + t.interval, now);
  }

  class EtimerProcess {
    var timerlist: ETimer?
    var next_expiration: int
    /** Set by etimer_request_poll. */
    var pollRequested: bool
    ghost var items: seq<ETimer>
    /** The posts of the last poll. */
    ghost var posts: seq<Post<ETimer>>

    /** The list is well linked and without duplicates, and no timer on it counts as expired. */
    ghost predicate Valid()
      reads this, items
    {
      WellLinked() && forall t | t in items :: t.p != NO_PROCESS
    }

    ghost predicate WellLinked()
      reads this, items
    {
      && Distinct(items) && Linked(timerlist, items)
      && forall t | t in items :: t.start < RANGE && t.interval < RANGE
    }

    constructor ()
      ensures Valid() && items == [] && posts == []
    {
      timerlist := null;
      next_expiration := 0;
      pollRequested := false;
      items := [];
      posts := [];
    }

    /** etimer_expired. */
    method EtimerExpired(et: ETimer) returns (r: bool)
      requires Valid()
      ensures r ==> et !in items
      ensures r <==> et.p == NO_PROCESS
    {
      r := et.p == NO_PROCESS;
    }

    /** update_time. */
    method UpdateTime(now: nat)
      requires WellLinked() && now < RANGE
      modifies `next_expiration
      ensures Nearest(items, next_expiration, now)
    {
      if timerlist == null {
        next_expiration := 0;
      } else {
        var tdist, best := LeastDistance(timerlist, now);
        next_expiration := Plus(now, tdist);
        assert items[best] in items;
      }
    }

    method DistanceOf(t: ETimer, now: nat) returns (d: int)
      ensures d == Distance(t, now)
    {
      d := Minus(Plus(t.start, t.interval), now);
    }

    /** The loop of update_time. */
    method LeastDistance(first: ETimer, now: nat) returns (tdist: int, ghost best: nat)
      requires Linked(first, items)
      ensures best < |items| && tdist == Distance(items[best], now)
      ensures forall t | t in items :: tdist <= Distance(t, now)
    {
      ghost var ds := Distances(items, now);
      ghost var i: nat := 0;
      best := 0;
      tdist := DistanceOf(first, now);
      assert LinkAt(items, 0);
      var t := first.next;
      while t != null
        invariant i < |items| && t == NextOf(items, i + 1)
        invariant best <= i && tdist == ds[best] && LeastUpTo(ds, i + 1, tdist)
        decreases |items| - i
      {
        i := i + 1;
        assert t == items[i] && LinkAt(items, i);
        var d := DistanceOf(t, now);
        LeastNext(ds, i, tdist);
        if d < tdist {
          tdist := d;
          best := i;
        }
        t := t.next;
      }
      LeastOfAll(tdist, ds, now);
    }

    lemma LeastOfAll(least: int, ds: seq<int>, now: nat)
      requires ds == Distances(items, now) && LeastUpTo(ds, |ds|, least)
      ensures forall t | t in items :: least <= Distance(t, now)
    {
      forall x | x in items
        ensures least <= Distance(x, now)
      {
        var j :| 0 <= j < |items| && items[j] == x;
        assert least <= ds[j];
      }
    }

    /** process_post, which may or may not find room in the event queue. */
    method ProcessPost(t: ETimer, process: nat) returns (ok: bool)
      modifies `posts
      ensures posts == old(posts) + [Post(t, process, ok)]
    {
      ok := *;
      posts := posts + [Post(t, process, ok)];
    }

    /** The unlinking in the poll branch: u is the timer before t. */
    method Unlink(u: ETimer?, t: ETimer, ghost k: nat)
      requires Valid() && k < |items| && t == items[k] && u == (if k == 0 then null else items[k - 1])
      modifies `timerlist, `items, Nodes(items)`p, Nodes(items)`next
      ensures Valid() && items == Removed(old(items), k)
      ensures t.p == NO_PROCESS && t.next == null && forall x | x in items :: x.p == old(x.p)
    {
      RemovedDistinct(items, k);
      Relink(u, t, k);
      items := Removed(items, k);
    }

    method Relink(u: ETimer?, t: ETimer, ghost k: nat)
      requires Distinct(items) && Linked(timerlist, items)
      requires k < |items| && t == items[k] && u == (if k == 0 then null else items[k - 1])
      modifies `timerlist, Nodes(items)`p, Nodes(items)`next
      ensures Linked(timerlist, Removed(items, k))
      ensures t.p == NO_PROCESS && t.next == null && forall x | x in items && x != t :: x.p == old(x.p)
    {
      LinksOf(timerlist, items);
      t.p := NO_PROCESS;
      if u != null {
        u.next := t.next;
      } else {
        timerlist := t.next;
      }
      t.next := null;
      LinkedAround(items, k, timerlist);
    }

    /** The loop of the poll branch up to the first accepted post, if there is one. */
    method FirstAccepted(now: nat, ghost due: map<ETimer, nat>)
      returns (u: ETimer?, t: ETimer?, ghost log: seq<Post<ETimer>>, ghost k: nat)
      requires Valid() && Sorted(items, due, now)
      modifies `posts, `pollRequested
      ensures posts == (if t == null then old(posts) + log else old(posts) + log + [Post(t, t.p, true)])
      ensures Refused(log, items, due)
      ensures t == null ==> forall x | x in items && x in due :: Posted(log, x) && pollRequested
      ensures t != null ==> k < |items| && t == items[k] && t in due && u == (if k == 0 then null else items[k - 1])
    {
      u, t := null, timerlist;
      k, log := 0, [];
      while t != null
        invariant k <= |items| && t == NextOf(items, k) && u == (if k == 0 then null else items[k - 1])
        invariant posts == old(posts) + log && Refused(log, items, due)
        invariant forall j | 0 <= j < k && items[j] in due :: Posted(log, items[j]) && pollRequested
        decreases |items| - k
      {
        assert t == items[k] && t in items;
        if Expired(t.start, t.interval, now) {
          var ok := ProcessPost(t, t.p);
          if ok {
            return;
          }
          log := RefusedSnoc(log, t, t.p, items, due);
          pollRequested := true;
        }
        assert LinkAt(items, k);
        u := t;
        t := t.next;
        k := k + 1;
      }
    }

    /** What follows an accepted post. */
    method TakeOff(u: ETimer?, t: ETimer, ghost k: nat, now: nat, ghost due: map<ETimer, nat>)
      requires Sorted(items, due, now) && Valid() && now < RANGE
      requires k < |items| && t == items[k] && u == (if k == 0 then null else items[k - 1])
      modifies `timerlist, `items, `next_expiration, Nodes(items)`p, Nodes(items)`next
      ensures Valid() && items == Removed(old(items), k) && Nearest(items, next_expiration, now)
      ensures Nodes(items) <= Nodes(old(items)) && Shed(old(items), items) && Sorted(items, due, now)
    {
      RemovedDistinct(items, k);
      Drop(u, t, k, now, due);
      UpdateTime(now);
    }

    method Drop(u: ETimer?, t: ETimer, ghost k: nat, now: nat, ghost due: map<ETimer, nat>)
      requires Sorted(items, due, now) && Valid() && now < RANGE
      requires k < |items| && t == items[k] && u == (if k == 0 then null else items[k - 1])
      modifies `timerlist, `items, Nodes(items)`p, Nodes(items)`next
      ensures Valid() && items == Removed(old(items), k)
      ensures Shed(old(items), items) && Sorted(items, due, now)
    {
      RemovedDistinct(items, k);
      ghost var before := items;
      Unlink(u, t, k);
      forall x | x in before && x !in items
        ensures Detached(x)
      {
        assert x == t;
      }
    }

    method TakeAccepted(u: ETimer?, t: ETimer, ghost k: nat, now: nat, ghost due: map<ETimer, nat>,
                        ghost before: seq<ETimer>)
      requires Sorted(items, due, now) && Valid() && now < RANGE
      requires k < |items| && t == items[k] && u == (if k == 0 then null else items[k - 1])
      requires PolledSoFar(before, Removed(items, k), due, posts)
      modifies `timerlist, `items, `next_expiration, Nodes(items)`p, Nodes(items)`next
      ensures Valid() && Sorted(items, due, now) && Nodes(items) <= Nodes(old(items)) && Shed(old(items), items)
      ensures PolledSoFar(before, items, due, posts) && |items| < |old(items)| && Nearest(items, next_expiration, now)
    {
      TakeOff(u, t, k, now, due);
    }

    /** The poll branch up to the `goto again`, or to its end. */
    method Pass(now: nat, ghost due: map<ETimer, nat>, ghost before: seq<ETimer>) returns (again: bool)
      requires Valid() && now < RANGE && Sorted(items, due, now) && PolledSoFar(before, items, due, posts)
      modifies this, Nodes(items)`p, Nodes(items)`next
      ensures Valid() && Sorted(items, due, now) && Nodes(items) <= Nodes(old(items)) && Shed(old(items), items)
      ensures again ==> PolledSoFar(before, items, due, posts) && |items| < |old(items)|
      ensures again || old(Nearest(items, next_expiration, now)) ==> Nearest(items, next_expiration, now)
      ensures !again ==> Polled(before, items, due, posts) && items == old(items)
      ensures again || pollRequested || NoneDue(items, due)
    {
      var u, t;
      ghost var more, k;
      u, t, more, k := FirstAccepted(now, due);
      if t != null {
        AcceptedPost(before, items, due, old(posts), more, k, t.p);
        TakeAccepted(u, t, k, now, due, before);
        again := true;
      } else {
        PollComplete(before, items, due, old(posts), more);
        again := false;
      }
    }

    /** The poll branch of etimer_process at a fixed clock: it comes to an end, however the posts go. */
    method Poll(now: nat, ghost due: map<ETimer, nat>)
      requires Valid() && now < RANGE && Sorted(items, due, now)
      modifies this, Nodes(items)`p, Nodes(items)`next
      ensures Valid() && Polled(old(items), items, due, posts) && Shed(old(items), items)
      ensures pollRequested || NoneDue(items, due)
      ensures items != old(items) || old(Nearest(items, next_expiration, now)) ==> Nearest(items, next_expiration, now)
    {
      ghost var before, near := items, Nearest(items, next_expiration, now);
      posts := [];
      WithoutNone(before, Gone(posts));
      var again := true;
      while again
        invariant Valid() && Sorted(items, due, now) && Nodes(items) <= Nodes(before) && Shed(before, items)
        invariant if again then PolledSoFar(before, items, due, posts) else Polled(before, items, due, posts)
        invariant again || pollRequested || NoneDue(items, due)
        invariant items != before || near ==> Nearest(items, next_expiration, now)
        decreases |items|, again
      {
        again := PollTurn(now, due, before);
      }
    }

    /** One turn of the loop. */
    method PollTurn(now: nat, ghost due: map<ETimer, nat>, ghost before: seq<ETimer>) returns (again: bool)
      requires Valid() && now < RANGE && Sorted(items, due, now) && PolledSoFar(before, items, due, posts)
      requires Shed(before, items)
      modifies this, Nodes(items)`p, Nodes(items)`next
      ensures Valid() && Sorted(items, due, now) && Nodes(items) <= Nodes(old(items)) && Shed(before, items)
      ensures again ==> PolledSoFar(before, items, due, posts) && |items| < |old(items)|
      ensures again || old(Nearest(items, next_expiration, now)) ==> Nearest(items, next_expiration, now)
      ensures !again ==> Polled(before, items, due, posts) && items == old(items)
      ensures again || pollRequested || NoneDue(items, due)
    {
      ghost var q := items;
      again := Pass(now, due, before);
      forall x | x in before && x !in items
        ensures Detached(x)
      {
        assert x in q || old(Detached(x));
      }
    }

    /** The branch for a process that has exited: its timers leave the list, the others keep their order. */
    method Exited(p: nat)
      requires Valid()
      modifies `timerlist, `items, Nodes(items)`next
      ensures Valid() && items == Without(old(items), old(OwnedBy(items, p)))
    {
      ghost var before, owned := items, OwnedBy(items, p);
      WithoutNone(before, {});
      ghost var gone := DropHead(p, before, owned);
      if timerlist != null {
        gone := DropRest(p, before, owned, gone);
      }
      AllOut(before, items, owned, gone);
    }

    /** The first loop of the branch. */
    method DropHead(p: nat, ghost before: seq<ETimer>, ghost owned: set<ETimer>) returns (ghost gone: set<ETimer>)
      requires Valid() && OwnedAre(items, owned, p) && Part(before, items, owned, {})
      modifies `timerlist, `items
      ensures Valid() && OwnedAre(items, owned, p) && Part(before, items, owned, gone)
      ensures Nodes(items) <= Nodes(old(items))
      ensures items == [] || items[0] !in owned
    {
      gone := {};
      while timerlist != null && timerlist.p == p
        invariant Valid() && OwnedAre(items, owned, p) && Part(before, items, owned, gone)
        invariant Nodes(items) <= Nodes(old(items))
        decreases |items|
      {
        assert timerlist == items[0] && items[0] in items;
        TakeOut(before, items, owned, gone, 0);
        gone := gone + {items[0]};
        SkipHead();
      }
    }

    /** The second loop of the branch. */
    method DropRest(p: nat, ghost before: seq<ETimer>, ghost owned: set<ETimer>, ghost gone0: set<ETimer>)
      returns (ghost gone: set<ETimer>)
      requires Valid() && OwnedAre(items, owned, p) && Part(before, items, owned, gone0)
      requires items != [] && items[0] !in owned
      modifies `items, Nodes(items)`next
      ensures Valid() && Part(before, items, owned, gone) && forall x | x in items :: x !in owned
    {
      gone := gone0;
      var t: ETimer := timerlist;
      ghost var i: nat := 0;
      assert LinkAt(items, 0);
      while t.next != null
        invariant Valid() && OwnedAre(items, owned, p) && Part(before, items, owned, gone)
        invariant Nodes(items) <= Nodes(old(items))
        invariant i < |items| && t == items[i] && LinkAt(items, i) && Kept(items, i, owned)
        decreases |items| - i
      {
        assert t.next == items[i + 1] && items[i] in Nodes(items);
        KeptAfter(items, i, owned);
        if t.next.p == p {
          gone := DropNext(t, p, before, owned, gone, i);
        } else {
          t := t.next;
          i := i + 1;
          assert LinkAt(items, i);
        }
      }
      AllKept(items, i, owned);
    }

    /** The next timer belongs to the process. */
    method DropNext(t: ETimer, p: nat, ghost before: seq<ETimer>, ghost owned: set<ETimer>, ghost gone0: set<ETimer>,
                    ghost i: nat)
      returns (ghost gone: set<ETimer>)
      requires Valid() && OwnedAre(items, owned, p) && Part(before, items, owned, gone0)
      requires i + 1 < |items| && t == items[i] && t.next != null && items[i + 1].p == p
      modifies `items, t`next
      ensures Valid() && OwnedAre(items, owned, p) && Part(before, items, owned, gone)
      ensures items == Removed(old(items), i + 1) && Nodes(items) <= Nodes(old(items)) && LinkAt(items, i)
    {
      assert items[i + 1] in items;
      TakeOut(before, items, owned, gone0, i + 1);
      gone := gone0 + {items[i + 1]};
      SkipNext(t, i);
    }

    /** timerlist = timerlist->next. */
    method SkipHead()
      requires Distinct(items) && Linked(timerlist, items) && timerlist != null
      modifies `timerlist, `items
      ensures items == Removed(old(items), 0) && Linked(timerlist, items)
    {
      LinksOf(timerlist, items);
      timerlist := timerlist.next;
      LinkedAround(items, 0, timerlist);
      items := Removed(items, 0);
    }

    /** t->next = t->next->next. */
    method SkipNext(t: ETimer, ghost i: nat)
      requires Distinct(items) && Linked(timerlist, items) && i + 1 < |items| && t == items[i] && t.next != null
      modifies `items, t`next
      ensures items == Removed(old(items), i + 1) && Linked(timerlist, items) && LinkAt(items, i)
    {
      LinksOf(timerlist, items);
      t.next := t.next.next;
      LinkedAround(items, i + 1, timerlist);
      items := Removed(items, i + 1);
    }

    /** The search in add_timer. */
    method OnList(timer: ETimer) returns (found: bool)
      requires Linked(timerlist, items)
      ensures found <==> timer in items
    {
      var t := timerlist;
      ghost var i: nat := 0;
      while t != null
        invariant i <= |items| && t == NextOf(items, i) && timer !in items[..i]
        decreases |items| - i
      {
        assert t == items[i] && LinkAt(items, i);
        if t == timer {
          return true;
        }
        t := t.next;
        i := i + 1;
      }
      return false;
    }

    /** add_timer. A timer added while there is no current process is on the list and yet counts as expired. */
    method AddTimer(timer: ETimer, current: nat, now: nat)
      requires Valid() && timer.start < RANGE && timer.interval < RANGE && now < RANGE
      modifies this, timer`p, timer`next
      ensures WellLinked() && timer.p == current && pollRequested && Nearest(items, next_expiration, now)
      ensures Valid() <==> current != NO_PROCESS
      ensures items == if timer in old(items) then old(items) else [timer] + old(items)
    {
      pollRequested := true;
      if timer.p != NO_PROCESS {
        var found := OnList(timer);
        if found {
          SetProcess(timer, current, now);
          return;
        }
      }
      Insert(timer, current, now);
    }

    /** The end of add_timer, for a timer that is not on the list. */
    method Insert(timer: ETimer, current: nat, now: nat)
      requires Valid() && timer.start < RANGE && timer.interval < RANGE && timer !in items && now < RANGE
      modifies `timerlist, `items, `next_expiration, timer`p, timer`next
      ensures WellLinked() && timer.p == current && items == [timer] + old(items)
      ensures Nearest(items, next_expiration, now) && (Valid() <==> current != NO_PROCESS)
    {
      Prepend(timer, current);
      UpdateTime(now);
    }

    /** The branch of add_timer for a timer on the list. */
    method SetProcess(timer: ETimer, current: nat, now: nat)
      requires Valid() && timer in items && now < RANGE
      modifies timer`p, `next_expiration
      ensures WellLinked() && timer.p == current && (Valid() <==> current != NO_PROCESS)
      ensures Nearest(items, next_expiration, now)
    {
      LinksOf(timerlist, items);
      timer.p := current;
      LinkedFrom(timerlist, items);
      UpdateTime(now);
    }

    method Prepend(timer: ETimer, current: nat)
      requires Valid() && timer.start < RANGE && timer.interval < RANGE && timer !in items
      modifies `timerlist, `items, timer`p, timer`next
      ensures WellLinked() && timer.p == current && items == [timer] + old(items)
      ensures Valid() <==> current != NO_PROCESS
    {
      DistinctCons(timer, items);
      LinksOf(timerlist, items);
      timer.p := current;
      timer.next := timerlist;
      timerlist := timer;
      LinkedCons(timer, items);
      items := [timer] + items;
      assert timer in items;
    }

    method SetTime(et: ETimer, start: nat, interval: nat)
      requires Valid() && start < RANGE && interval < RANGE
      modifies et`start, et`interval
      ensures Valid() && et.start == start && et.interval == interval
    {
      LinksOf(timerlist, items);
      et.start, et.interval := start, interval;
      LinkedFrom(timerlist, items);
    }

    /** etimer_set. */
    method Set(et: ETimer, interval: nat, current: nat, now: nat)
      requires Valid() && interval < RANGE && now < RANGE
      modifies this, et
      ensures WellLinked() && (Valid() <==> current != NO_PROCESS)
      ensures et.p == current && et.start == now && et.interval == interval
      ensures items == if et in old(items) then old(items) else [et] + old(items)
      ensures Nearest(items, next_expiration, now)
    {
      SetTime(et, now, interval);
      AddTimer(et, current, now);
    }

    /** timer_reset: an expired timer starts again where it expired. */
    method TimerReset(et: ETimer, now: nat)
      requires Valid() && et.start < RANGE && et.interval < RANGE && now < RANGE
      modifies et`start, et`interval
      ensures Valid() && et.interval == old(et.interval)
      ensures et.start == if Expired(old(et.start), old(et.interval), now) then old(ExpirationTime(et))
                          else old(et.start)
      ensures Expired(old(et.start), old(et.interval), now) ==> FirstExpired(old(et.start), old(et.interval), et.start)
    {
      if Expired(et.start, et.interval, now) {
        ExpiredFirst(et.start, et.interval, now);
        SetTime(et, Plus(et.start, et.interval), et.interval);
      }
    }

    /** etimer_reset_with_new_interval; etimer_reset is the case of the same interval. */
    method ResetWithNewInterval(et: ETimer, interval: nat, current: nat, now: nat)
      requires Valid() && et.start < RANGE && et.interval < RANGE && interval < RANGE && now < RANGE
      modifies this, et
      ensures WellLinked() && (Valid() <==> current != NO_PROCESS)
      ensures et.p == current && et.interval == interval
      ensures et.start == if Expired(old(et.start), old(et.interval), now) then old(ExpirationTime(et))
                          else old(et.start)
      ensures Expired(old(et.start), old(et.interval), now) ==> FirstExpired(old(et.start), old(et.interval), et.start)
      ensures items == if et in old(items) then old(items) else [et] + old(items)
      ensures Nearest(items, next_expiration, now)
    {
      TimerReset(et, now);
      SetTime(et, et.start, interval);
      AddTimer(et, current, now);
    }

    /** etimer_restart. */
    method Restart(et: ETimer, current: nat, now: nat)
      requires Valid() && et.interval < RANGE && now < RANGE
      modifies this, et
      ensures WellLinked() && (Valid() <==> current != NO_PROCESS)
      ensures et.p == current && et.start == now && et.interval == old(et.interval)
      ensures items == if et in old(items) then old(items) else [et] + old(items)
      ensures Nearest(items, next_expiration, now)
    {
      SetTime(et, now, et.interval);
      AddTimer(et, current, now);
    }

    /** etimer_adjust: the start moves by a signed number of ticks, modulo the clock range. */
    method Adjust(et: ETimer, timediff: int, now: nat)
      requires Valid() && et.start < RANGE && et.interval < RANGE && now < RANGE && RANGE > 0
      modifies et`start, et`interval, `next_expiration
      ensures Valid() && et.start == (old(et.start) + timediff) % RANGE && et.interval == old(et.interval)
      ensures Nearest(items, next_expiration, now)
    {
      var start := (et.start + timediff) % RANGE;
      SetTime(et, start, et.interval);
      UpdateTime(now);
    }

    /** etimer_stop: the timer counts as expired and is off the list, whether it was on it or not. */
    method Stop(et: ETimer, now: nat)
      requires Valid() && now < RANGE
      modifies this, et`p, et`next, Nodes(items)`next
      ensures Valid() && items == Without(old(items), {et})
      ensures et.p == NO_PROCESS && et.next == null
      ensures et in old(items) ==> Nearest(items, next_expiration, now)
    {
      if et == timerlist {
        StopFirst(et, now);
      } else {
        StopLater(et, now);
      }
      Detach(et, now);
    }

    /** The timer is the first one of the list. */
    method StopFirst(et: ETimer, now: nat)
      requires Valid() && now < RANGE && et == timerlist
      modifies `timerlist, `items, `next_expiration
      ensures Valid() && items == Without(old(items), {et}) && et !in items
      ensures Nearest(items, next_expiration, now)
    {
      RemoveOne(items, 0);
      SkipHead();
      UpdateTime(now);
    }

    /** The timer is a later one or not on the list. */
    method StopLater(et: ETimer, now: nat)
      requires Valid() && now < RANGE && et != timerlist
      modifies `items, `next_expiration, Nodes(items)`next
      ensures Valid() && items == Without(old(items), {et}) && et !in items
      ensures et in old(items) ==> Nearest(items, next_expiration, now)
    {
      var t;
      ghost var i;
      t, i := FindBefore(et);
      if t != null {
        TakeNext(t, et, i);
        UpdateTime(now);
      } else {
        WithoutNone(items, {et});
      }
    }

    /** t->next = et->next. */
    method TakeNext(t: ETimer, et: ETimer, ghost i: nat)
      requires Valid() && i + 1 < |items| && t == items[i] && t.next == items[i + 1] == et
      modifies `items, t`next
      ensures Valid() && items == Without(old(items), {et}) && et !in items
    {
      RemoveOne(items, i + 1);
      SkipNext(t, i);
    }

    /** The search in etimer_stop, for a timer that is not the first one. */
    method FindBefore(et: ETimer) returns (t: ETimer?, ghost i: nat)
      requires Linked(timerlist, items) && et != timerlist
      ensures t == null ==> et !in items
      ensures t != null ==> i + 1 < |items| && t == items[i] && t.next == items[i + 1] == et
    {
      t, i := timerlist, 0;
      while t != null && t.next != et
        invariant i <= |items| && t == NextOf(items, i) && forall j | 0 <= j <= i && j < |items| :: items[j] != et
        decreases |items| - i
      {
        assert t == items[i] && LinkAt(items, i);
        t := t.next;
        i := i + 1;
      }
      if t != null {
        assert t == items[i] && LinkAt(items, i);
      }
    }

    method Detach(et: ETimer, now: nat)
      requires Valid() && et !in items
      modifies et`p, et`next
      ensures Valid() && et.p == NO_PROCESS && et.next == null
      ensures old(Nearest(items, next_expiration, now)) ==> Nearest(items, next_expiration, now)
    {
      LinksOf(timerlist, items);
      et.next := null;
      et.p := NO_PROCESS;
      LinkedFrom(timerlist, items);
    }
  }

  lemma RemoveOne<T>(s: seq<T>, k: nat)
    requires k < |s| && Distinct(s)
    ensures Removed(s, k) == Without(s, {s[k]}) && Distinct(Removed(s, k)) && s[k] !in Removed(s, k)
    ensures forall x | x in Removed(s, k) :: x in s
  {
    WithoutOne(s, k);
    RemovedDistinct(s, k);
  }

  ghost predicate OwnedAre(items: seq<ETimer>, owned: set<ETimer>, p: nat)
    reads items
  {
    forall x | x in items :: x in owned <==> x.p == p
  }

  ghost predicate Kept<T>(items: seq<T>, i: nat, owned: set<T>) {
    i < |items| && forall j | 0 <= j <= i :: items[j] !in owned
  }

  lemma AllKept(items: seq<ETimer>, i: nat, owned: set<ETimer>)
    requires Kept(items, i, owned) && NextOf(items, i + 1) == null
    ensures forall x | x in items :: x !in owned
  {
  }

  lemma KeptAfter<T>(items: seq<T>, i: nat, owned: set<T>)
    requires Kept(items, i, owned) && i + 1 < |items|
    ensures Kept(Removed(items, i + 1), i, owned)
    ensures items[i + 1] !in owned ==> Kept(items, i + 1, owned)
  {
  }

  /** Some timers of the process are out. */
  ghost predicate Part<T>(before: seq<T>, items: seq<T>, owned: set<T>, gone: set<T>) {
    items == Without(before, gone) && gone <= owned
  }

  lemma TakeOut<T>(before: seq<T>, items: seq<T>, owned: set<T>, gone: set<T>, k: nat)
    requires Part(before, items, owned, gone) && Distinct(items) && k < |items| && items[k] in owned
    ensures Part(before, Removed(items, k), owned, gone + {items[k]}) && Distinct(Removed(items, k))
    ensures forall x | x in Removed(items, k) :: x in items
  {
    WithoutTwice(before, gone, {items[k]});
    WithoutOne(items, k);
    RemovedDistinct(items, k);
  }

  lemma AllOut<T>(before: seq<T>, items: seq<T>, owned: set<T>, gone: set<T>)
    requires Part(before, items, owned, gone) && forall x | x in items :: x !in owned
    requires forall x | x in owned :: x in before
    ensures items == Without(before, owned)
  {
    WithoutMembers(before, gone);
    assert gone == owned;
  }

  ghost predicate NoneDue(items: seq<ETimer>, due: map<ETimer, nat>) {
    forall x | x in items :: x !in due
  }

  /** The timers in due are those that have expired, with the processes that they belong to. */
  ghost predicate Sorted(items: seq<ETimer>, due: map<ETimer, nat>, now: nat)
    reads items
  {
    && (forall x | x in items :: x in due <==> Expired(x.start, x.interval, now))
    && (forall x | x in items && x in due :: due[x] == x.p)
  }

  /** The timers that left the list count as expired. */
  ghost predicate Shed(before: seq<ETimer>, items: seq<ETimer>)
    reads before
  {
    forall x {:trigger Detached(x)} | x in before && x !in items :: Detached(x)
  }

  ghost predicate Detached(x: ETimer)
    reads x
  {
    x.p == NO_PROCESS && x.next == null
  }

  /** The timers of a process. */
  ghost function OwnedBy(items: seq<ETimer>, p: nat): set<ETimer>
    reads items
  {
    set x | x in items && x.p == p
  }

  lemma RefusedSnoc<T>(log: seq<Post<T>>, t: T, process: nat, items: seq<T>, due: map<T, nat>)
    returns (more: seq<Post<T>>)
    requires Refused(log, items, due) && t in items && t in due && process == due[t]
    ensures more == log + [Post(t, process, false)] && Refused(more, items, due) && Posted(more, t)
    ensures forall x | Posted(log, x) :: Posted(more, x)
  {
    more := log + [Post(t, process, false)];
    assert more[|log|] in more;
    forall x | Posted(log, x)
      ensures Posted(more, x)
    {
      var p :| p in log && p.timer == x;
      assert p in more;
    }
  }

  lemma LinksOf(head: ETimer?, items: seq<ETimer>)
    requires Linked(head, items)
    ensures forall i | 0 <= i < |items| :: items[i].next == NextOf(items, i + 1)
  {
    forall i | 0 <= i < |items|
      ensures items[i].next == NextOf(items, i + 1)
    {
      assert LinkAt(items, i);
    }
  }

  lemma LinkedFrom(head: ETimer?, items: seq<ETimer>)
    requires head == NextOf(items, 0) && forall i | 0 <= i < |items| :: items[i].next == NextOf(items, i + 1)
    ensures Linked(head, items)
  {
  }

  lemma LinkedCons(head: ETimer, items: seq<ETimer>)
    requires head.next == NextOf(items, 0) && forall i | 0 <= i < |items| :: items[i].next == NextOf(items, i + 1)
    ensures Linked(head, [head] + items)
  {
    var r := [head] + items;
    forall i | 0 <= i < |r|
      ensures LinkAt(r, i)
    {
      assert i > 0 ==> r[i] == items[i - 1];
    }
  }

  /** The list with the links led around its k-th timer. */
  lemma LinkedAround(was: seq<ETimer>, k: nat, head: ETimer?)
    requires k < |was| && head == NextOf(was, if k == 0 then 1 else 0)
    requires forall i | 0 <= i < |was| && i != k && i + 1 != k :: was[i].next == NextOf(was, i + 1)
    requires k > 0 ==> was[k - 1].next == NextOf(was, k + 1)
    ensures Linked(head, Removed(was, k))
  {
  }
}
