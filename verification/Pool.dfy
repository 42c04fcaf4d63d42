/** The connection pool: its methods one at a time, and every interleaving of them with the
    goroutines that reap idle connections. */
module Pool {
  import opened Bytes

  type Conn = nat

  /** How Open ends, or that it does not. */
  datatype OpenResult = Opened | Refused | Unconnected | Waits

  /** One caller at a time. `lent` and `shut` record the connections handed out and those
      that were closed. */
  class ConnectionPool {
    const minConns: nat
    const maxConns: nat
    const reachable: bool  // connecting never fails
    var conns: seq<Conn>   // the buffered channel
    var closed: bool
    var total: nat        // connections are numbered as they are opened
    var lent: multiset<Conn>
    var shut: multiset<Conn>

    /** Every connection ever opened is idle, lent or closed, in one place and once. */
    ghost predicate Valid()
      reads this
    {
      && |conns| <= maxConns
      && multiset(conns) + lent + shut == multiset(Numbers(total))
    }

    constructor (minConns: nat, maxConns: nat, reachable: bool)
      ensures Valid() && conns == [] && !closed && total == 0
      ensures this.minConns == minConns && this.maxConns == maxConns && this.reachable == reachable
    {
      this.minConns, this.maxConns, this.reachable := minConns, maxConns, reachable;
      conns, closed, total, lent, shut := [], false, 0, multiset{}, multiset{};
    }

    method Connect() returns (conn: Option<Conn>)
      requires Valid()
      modifies this`total, this`lent
      ensures conns == old(conns) && |conns| <= maxConns
      ensures conn.None? ==> total == old(total) && lent == old(lent)
      ensures conn.Some? ==> conn.value == old(total) && total == old(total) + 1
      ensures conn.Some? ==> lent == old(lent) + multiset{conn.value}
      ensures reachable ==> conn.Some?
      ensures Valid()
    {
      if !reachable {
        if * { return None; }
      }
      conn := Some(total);
      lent := lent + multiset{total};
      NumbersGrow(total);
      total := total + 1;
    }

    /** Opens minConns connections. With nobody to receive, the send into a full channel waits
        for ever, with the mutex held and the last connection in hand. */
    method Open() returns (r: OpenResult)
      requires Valid()
      modifies this
      ensures Valid() && closed == old(closed) && shut == old(shut) && old(conns) <= conns
      ensures old(closed) ==> r == Refused && conns == old(conns)
      ensures !old(closed) && r != Unconnected ==> (r == Waits <==> |old(conns)| + minConns > maxConns) && r != Refused
      ensures reachable ==> r != Unconnected
      ensures r == Opened ==> |conns| == |old(conns)| + minConns
      ensures r == Waits ==> |conns| == maxConns && exists c :: lent == old(lent) + multiset{c}
      ensures r != Waits ==> lent == old(lent)
    {
      if closed { return Refused; }
      hide Numbers, Valid;
      var i := 0;
      while i < minConns
        invariant 0 <= i <= minConns
        invariant Valid() && closed == old(closed) && |conns| == |old(conns)| + i
        invariant old(conns) <= conns && lent == old(lent) && shut == old(shut)
      {
        var conn := Connect();
        if conn.None? { return Unconnected; }
        if |conns| == maxConns { return Waits; }
        assert lent - multiset{conn.value} == old(lent);
        Store(conn.value);
        i := i + 1;
      }
      r := Opened;
    }

    method Store(conn: Conn)
      requires Valid() && conn in lent && |conns| < maxConns
      modifies this`conns, this`lent
      ensures Valid() && conns == old(conns) + [conn] && lent == old(lent) - multiset{conn}
    {
      conns := conns + [conn];
      lent := lent - multiset{conn};
    }

    method Get() returns (conn: Option<Conn>)
      requires Valid()
      modifies this
      ensures Valid() && closed == old(closed) && shut == old(shut)
      ensures old(closed) ==> conn.None?
      ensures reachable && !old(closed) ==> conn.Some?
      ensures conn.None? ==> conns == old(conns) && lent == old(lent)
      ensures conn.Some? ==> lent == old(lent) + multiset{conn.value} && conn.value !in old(lent)
      ensures !old(closed) && old(conns) != [] ==> conn == Some(old(conns)[0]) && conns == old(conns)[1..]
      ensures !old(closed) && old(conns) == [] ==> conns == [] && (conn.Some? ==> conn.value == old(total))
    {
      if closed { return None; }
      if conns != [] {
        assert multiset(conns) + (lent + shut) == multiset(conns) + lent + shut;
        OnePlaceEach(multiset(conns), lent + shut, total, conns[0]);
        conn := Some(conns[0]);
        HeadTail(conns);
        lent := lent + multiset{conns[0]};
        conns := conns[1..];
      } else {
        assert total !in multiset(Numbers(total));
        conn := Connect();
      }
    }

    method Put(conn: Conn)
      requires Valid() && conn in lent
      modifies this
      ensures Valid() && closed == old(closed) && lent == old(lent) - multiset{conn}
      ensures if !old(closed) && |old(conns)| < maxConns then conns == old(conns) + [conn] && shut == old(shut)
              else conns == old(conns) && shut == old(shut) + multiset{conn}
    {
      lent := lent - multiset{conn};
      if closed {
        shut := shut + multiset{conn};
        return;
      }
      if |conns| < maxConns {
        conns := conns + [conn];
      } else {
        shut := shut + multiset{conn};
      }
    }

    /** The bound of the loop shrinks with the channel, so half of the idle connections stay. */
    method Close()
      requires Valid()
      modifies this
      ensures Valid() && closed && lent == old(lent)
      ensures old(closed) ==> conns == old(conns) && shut == old(shut)
      ensures !old(closed) ==> var k := (|old(conns)| + 1) / 2;
                               conns == old(conns)[k..] && shut == old(shut) + multiset(old(conns)[..k])
    {
      if closed { return; }
      closed := true;
      var i := 0;
      while i < |conns|
        invariant 0 <= i <= (|old(conns)| + 1) / 2
        invariant Valid() && closed && lent == old(lent)
        invariant conns == old(conns)[i..] && shut == old(shut) + multiset(old(conns)[..i])
        decreases |conns|
      {
        MoveOne(old(conns), i);
        Discard();
        i := i + 1;
      }
    }

    /** Receives the oldest idle connection and closes it. */
    method Discard()
      requires Valid() && conns != []
      modifies this`conns, this`shut
      ensures Valid() && conns == old(conns)[1..] && shut == old(shut) + multiset{old(conns)[0]}
    {
      HeadTail(conns);
      shut := shut + multiset{conns[0]};
      conns := conns[1..];
    }

    /** One round of reapIdleConns with nobody else at work. */
    method Reap()
      requires Valid()
      modifies this
      ensures Valid() && closed == old(closed) && lent == old(lent)
      ensures var k := if |old(conns)| > minConns then |old(conns)| - minConns else 0;
              conns == old(conns)[k..] && shut == old(shut) + multiset(old(conns)[..k])
    {
      hide Numbers, Valid;
      ghost var all := conns;
      var idleConns := |conns| - minConns;
      var i := 0;
      while i < idleConns
        invariant 0 <= i && (i <= idleConns || i == 0)
        invariant Valid() && closed == old(closed) && lent == old(lent)
        invariant i <= |all| && conns == all[i..] && shut == old(shut) + multiset(all[..i])
      {
        MoveOne(all, i);
        Discard();
        i := i + 1;
      }
    }
  }

  lemma MoveOne(all: seq<Conn>, i: nat)
    requires i < |all|
    ensures multiset(all[..i + 1]) == multiset(all[..i]) + multiset{all[i]}
    ensures all[i..][0] == all[i] && all[i..][1..] == all[i + 1..]
  {
    assert all[..i + 1] == all[..i] + [all[i]];
  }

  /** Close leaves no idle connection exactly when there was at most one. */
  lemma CloseEmptiesIffAtMostOne(idle: seq<Conn>)
    ensures idle[(|idle| + 1) / 2..] == [] <==> |idle| <= 1
  {
  }

  /** 0, 1, ..., n - 1 */
  function Numbers(n: nat): (s: set<nat>)
    ensures forall i: nat :: i in s <==> i < n
  {
    if n == 0 then {} else Numbers(n - 1) + {n - 1}
  }

  lemma NumbersGrow(n: nat)
    ensures multiset(Numbers(n + 1)) == multiset(Numbers(n)) + multiset{n}
  {
  }

  /** Of all opened connections, each is in one place only. */
  lemma OnePlaceEach(a: multiset<Conn>, b: multiset<Conn>, n: nat, c: Conn)
    requires a + b == multiset(Numbers(n))
    ensures c in a ==> c !in b && a[c] == 1 && c < n
  {
    assert (a + b)[c] == a[c] + b[c];
    assert multiset(Numbers(n))[c] <= 1;
  }
}
