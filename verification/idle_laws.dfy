/** The idle list over a run, in terms of what has happened: who is still connected, and when it was last active. */
module IdleLaws {
  import opened IdleList

  ghost predicate IsRun(happenings: seq<Happening>, delays: seq<nat>, n: nat) {
    |happenings| == |delays| && n <= |happenings|
  }

  /** The time after n happenings. */
  ghost function Time(delays: seq<nat>, n: nat): nat
    requires n <= |delays|
  {
    if n == 0 then 0 else Time(delays, n - 1) + delays[n - 1]
  }

  /** How many connections have been accepted by then. */
  ghost function AcceptedBy(happenings: seq<Happening>, n: nat): nat
    requires n <= |happenings|
  {
    if n == 0 then 0 else AcceptedBy(happenings, n - 1) + if happenings[n - 1].Accepted? then 1 else 0
  }

  /** Happening k is the last activity, before n, of the connection accepted by happening a. */
  ghost predicate LastActivity(happenings: seq<Happening>, fd: nat, a: nat, k: nat, n: nat)
    requires n <= |happenings|
  {
    && a <= k < n && (k == a || happenings[k] == Active(fd))
    && forall j | k < j < n :: happenings[j] != Active(fd)
  }

  /**
   Happening a accepted the connection with this number, nothing has closed it before n, and at no processing of the
   timers had it been idle for more than 5000 ms.
   */
  ghost predicate OpenSince(happenings: seq<Happening>, delays: seq<nat>, fd: nat, a: nat, n: nat)
    requires IsRun(happenings, delays, n)
  {
    && a < n && happenings[a].Accepted? && AcceptedBy(happenings, a) == fd
    && (forall j | a < j < n :: happenings[j] != Closed(fd))
    && forall j, k: nat | a < j < n && happenings[j].Timers? && LastActivity(happenings, fd, a, k, j) ::
         Time(delays, k + 1) + 5000 >= Time(delays, j + 1)
  }

  ghost function ClientsAt(happenings: seq<Happening>, delays: seq<nat>, n: nat): Clients
    requires IsRun(happenings, delays, n)
  {
    Meaning(happenings[..n], delays[..n])
  }

  lemma {:induction false} InWithout(open: seq<Idle>, fd: nat, x: Idle)
    ensures x in Without(open, fd) <==> x in open && x.fd != fd
  {
    if open != [] {
      InWithout(open[1..], fd, x);
      assert x in open <==> x == open[0] || x in open[1..];
    }
  }

  lemma {:induction false} InUnexpired(open: seq<Idle>, now: nat, x: Idle)
    ensures x in Unexpired(open, now) <==> x in open && x.lastActive + 5000 >= now
  {
    if open != [] {
      InUnexpired(open[1..], now, x);
      assert x in open <==> x == open[0] || x in open[1..];
    }
  }

  lemma InOpen(open: seq<Idle>, fd: nat)
    ensures IsOpen(open, fd) <==> exists last: nat :: Idle(fd, last) in open
  {
    if IsOpen(open, fd) {
      var i :| 0 <= i < |open| && open[i].fd == fd;
      assert Idle(fd, open[i].lastActive) in open;
    }
  }

  /** What one happening makes of an entry of the list. */
  lemma EntryStep(happenings: seq<Happening>, delays: seq<nat>, n: nat, x: Idle)
    requires IsRun(happenings, delays, n) && n > 0
    ensures var c, c' := ClientsAt(happenings, delays, n - 1), ClientsAt(happenings, delays, n);
            && c'.now == c.now + delays[n - 1]
            && c'.accepted == c.accepted + (if happenings[n - 1].Accepted? then 1 else 0)
            && (x in c'.open <==>
                  match happenings[n - 1]
                  case Accepted => x in c.open || x == Idle(c.accepted, c'.now)
                  case Active(fd) =>
                    if fd == x.fd then x.lastActive == c'.now && exists last: nat :: Idle(fd, last) in c.open
                    else x in c.open
                  case Closed(fd) => x in c.open && x.fd != fd
                  case Timers => x in c.open && x.lastActive + 5000 >= c'.now)
  {
    hide Without, Unexpired, IsOpen, Meaning;
    var c := ClientsAt(happenings, delays, n - 1);
    MeaningOfMore(happenings, delays, n - 1);
    InOpen(c.open, x.fd);
    InWithout(c.open, x.fd, x);
    if happenings[n - 1].Active? || happenings[n - 1].Closed? {
      InWithout(c.open, happenings[n - 1].fd, x);
    }
    InUnexpired(c.open, c.now + delays[n - 1], x);
    if happenings[n - 1].Active? && happenings[n - 1].fd == x.fd && !IsOpen(c.open, x.fd) {
      assert x == Idle(x.fd, x.lastActive);
    }
  }

  lemma {:induction false} TimeAndCount(happenings: seq<Happening>, delays: seq<nat>, n: nat)
    requires IsRun(happenings, delays, n)
    ensures ClientsAt(happenings, delays, n).now == Time(delays, n)
    ensures ClientsAt(happenings, delays, n).accepted == AcceptedBy(happenings, n)
  {
    if n > 0 {
      hide ClientsAt;
      TimeAndCount(happenings, delays, n - 1);
      EntryStep(happenings, delays, n, Idle(0, 0));
    }
  }

  lemma {:induction false} ActivityExists(happenings: seq<Happening>, fd: nat, a: nat, n: nat) returns (k: nat)
    requires a < n <= |happenings|
    ensures LastActivity(happenings, fd, a, k, n)
  {
    if n == a + 1 || happenings[n - 1] == Active(fd) {
      k := n - 1;
    } else {
      k := ActivityExists(happenings, fd, a, n - 1);
    }
  }

  /** Whoever is in the list was accepted and has stayed, and is in it with the time of its last activity. */
  lemma {:induction false} ListedIsOpen(happenings: seq<Happening>, delays: seq<nat>, n: nat, x: Idle)
    returns (a: nat, k: nat)
    requires IsRun(happenings, delays, n) && x in ClientsAt(happenings, delays, n).open
    ensures OpenSince(happenings, delays, x.fd, a, n) && LastActivity(happenings, x.fd, a, k, n)
    ensures x.lastActive == Time(delays, k + 1)
  {
    if n == 0 {
      assert false;
    } else {
      hide ClientsAt, OpenSince, LastActivity;
      EntryStep(happenings, delays, n, x);
      TimeAndCount(happenings, delays, n - 1);
      TimeAndCount(happenings, delays, n);
      var c := ClientsAt(happenings, delays, n - 1);
      if x in c.open && happenings[n - 1] != Active(x.fd) {
        a, k := ListedIsOpen(happenings, delays, n - 1, x);
        StillOpen(happenings, delays, x.fd, a, k, n);
      } else if happenings[n - 1].Active? {
        var last: nat :| Idle(x.fd, last) in c.open;
        a, k := ListedIsOpen(happenings, delays, n - 1, Idle(x.fd, last));
        k := n - 1;
        JustActive(happenings, delays, x.fd, a, n);
      } else {
        a, k := n - 1, n - 1;
        JustAccepted(happenings, delays, x.fd, n);
      }
    }
  }

  lemma JustActive(happenings: seq<Happening>, delays: seq<nat>, fd: nat, a: nat, n: nat)
    requires n > 0 && IsRun(happenings, delays, n) && OpenSince(happenings, delays, fd, a, n - 1)
    requires happenings[n - 1] == Active(fd)
    ensures OpenSince(happenings, delays, fd, a, n) && LastActivity(happenings, fd, a, n - 1, n)
  {
  }

  lemma JustAccepted(happenings: seq<Happening>, delays: seq<nat>, fd: nat, n: nat)
    requires n > 0 && IsRun(happenings, delays, n)
    requires happenings[n - 1].Accepted? && AcceptedBy(happenings, n - 1) == fd
    ensures OpenSince(happenings, delays, fd, n - 1, n) && LastActivity(happenings, fd, n - 1, n - 1, n)
  {
  }

  lemma StillOpen(happenings: seq<Happening>, delays: seq<nat>, fd: nat, a: nat, k: nat, n: nat)
    requires n > 0 && IsRun(happenings, delays, n) && OpenSince(happenings, delays, fd, a, n - 1)
    requires LastActivity(happenings, fd, a, k, n - 1) && happenings[n - 1] != Active(fd)
    requires happenings[n - 1] != Closed(fd)
    requires happenings[n - 1].Timers? ==> Time(delays, k + 1) + 5000 >= Time(delays, n)
    ensures OpenSince(happenings, delays, fd, a, n) && LastActivity(happenings, fd, a, k, n)
  {
    forall j, l: nat | a < j < n && happenings[j].Timers? && LastActivity(happenings, fd, a, l, j)
      ensures Time(delays, l + 1) + 5000 >= Time(delays, j + 1)
    {
      if j == n - 1 {
        assert l == k;
      }
    }
  }

  /** Whoever was accepted and has stayed is in the list, with the time of its last activity. */
  lemma {:induction false} OpenIsListed(happenings: seq<Happening>, delays: seq<nat>, n: nat, fd: nat, a: nat, k: nat)
    requires IsRun(happenings, delays, n) && OpenSince(happenings, delays, fd, a, n)
    requires LastActivity(happenings, fd, a, k, n)
    ensures Idle(fd, Time(delays, k + 1)) in ClientsAt(happenings, delays, n).open
  {
    hide ClientsAt;
    var x := Idle(fd, Time(delays, k + 1));
    EntryStep(happenings, delays, n, x);
    TimeAndCount(happenings, delays, n - 1);
    TimeAndCount(happenings, delays, n);
    if a < n - 1 {
      var l := ActivityExists(happenings, fd, a, n - 1);
      OpenIsListed(happenings, delays, n - 1, fd, a, l);
      if happenings[n - 1] != Active(fd) {
        assert LastActivity(happenings, fd, a, k, n - 1);
        assert l == k;
      }
    }
  }
}
