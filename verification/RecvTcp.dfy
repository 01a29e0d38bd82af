/**
 Reading a TCP socket (sockets.c): each read takes bytes from the pbuf chain that was left over and
 from chains that the connection hands over, and reports what it took for the window update.

 What the connection hands over, or the error it gives, is input.
 */
module RecvTcp {
  import opened Common
  import opened PbufChain

  /** SSIZE_MAX where ssize_t is int. */
  const SSIZE_MAX := 0x7FFF_FFFF

  /** What netconn_recv_tcp_pbuf_flags gives. */
  datatype Arrival = Received(bufs: seq<Buf>) | Failed(closed: bool)

  ghost predicate ArrivalOk(a: Arrival) {
    a.Received? ==> a.bufs != [] && PbufChain.Valid(a.bufs)
  }

  /** The bytes of the first `n` chains that the connection hands over. */
  ghost function Handed(arrivals: seq<Arrival>, n: nat): seq<byte>
    requires n <= |arrivals|
  {
    if n == 0 then []
    else Handed(arrivals, n - 1) + if arrivals[n - 1].Received? then Flatten(arrivals[n - 1].bufs) else []
  }

  class Socket {
    /** lastdata.pbuf; an empty list is NULL. */
    const last: Chain
    /** Bytes reported to the connection by netconn_tcp_recvd, and those that reached tcp_recved. */
    var reported: nat
    var window: nat
    /** All bytes handed over, all bytes of reads that were no peeks, and the chain that `last` is left of. */
    ghost var received: seq<byte>
    ghost var delivered: seq<byte>
    ghost var current: seq<byte>

    ghost function Rest(): seq<byte>
      reads this, last
    {
      Flatten(last.bufs)
    }

    /**
     Reads have delivered a prefix of what was received; lastdata is exactly the rest, and the rest of
     the chain received last. What was delivered has been reported, but for the `recvd` bytes of a
     read that is going on.
     */
    ghost predicate Reading(recvd: nat)
      reads this, last
    {
      && PbufChain.Valid(last.bufs)
      && received == delivered + Rest()
      && |Rest()| <= |current| <= |received| && received[|received| - |current|..] == current
      && reported + recvd == |delivered|
    }

    ghost predicate Valid()
      reads this, last
    {
      Reading(0)
    }

    constructor ()
      ensures Valid() && delivered == received == [] && fresh(last)
    {
      last := new Chain([]);
      reported, window, received, delivered, current := 0, 0, [], [], [];
    }

    /** lwip_netconn_do_recv: tcp_recved is called in pieces that fit in a u16_t and add up to `len`. */
    method TcpRecved(len: nat, connected: bool)
      modifies this`window
      ensures window == old(window) + if connected then len else 0
    {
      if connected {
        var remaining: nat := len;
        while true
          invariant window + remaining == old(window) + len
          decreases remaining
        {
          var recved := if remaining > 0xFFFF then 0xFFFF else remaining;
          window := window + recved;
          remaining := remaining - recved;
          if remaining == 0 {
            break;
          }
        }
      }
    }

    /** The next chain from the connection becomes lastdata. */
    method Fetch(bufs: seq<Buf>, ghost recvd: nat)
      requires Reading(recvd) && last.bufs == [] && PbufChain.Valid(bufs)
      modifies this`received, this`current, last
      ensures Reading(recvd) && last.bufs == bufs
      ensures received == old(received) + Flatten(bufs) && current == Flatten(bufs)
    {
      last.bufs := bufs;
      received, current := received + Flatten(bufs), Flatten(bufs);
    }

    /** Take the first `n` bytes of lastdata. */
    method Consume(n: nat, ghost recvd: nat)
      requires Reading(recvd) && last.bufs != [] && n <= last.bufs[0].totLen
      modifies this`delivered, last
      ensures n <= |old(Rest())| && Reading(recvd + n) && Rest() == old(Rest())[n..]
      ensures delivered == old(delivered) + old(Rest())[..n]
      ensures last.bufs == [] <==> n == |old(Rest())|
    {
      ghost var rest := Rest();
      TotalOf(last.bufs);
      if last.bufs[0].totLen - n > 0 {
        last.FreeHeader(n);
      } else {
        last.bufs := [];
      }
      assert rest == rest[..n] + rest[n..];
      delivered := delivered + rest[..n];
    }

    /** The bytes that the next round finds: lastdata, or else the next chain from the connection. */
    ghost function Next(arrivals: seq<Arrival>, n: nat): seq<byte>
      reads this, last
    {
      if last.bufs != [] then Rest()
      else if n < |arrivals| && arrivals[n].Received? then Flatten(arrivals[n].bufs) else []
    }

    /** Copy from lastdata and, unless peeking, take what was copied. */
    method Deliver(left: nat, peek: bool, ghost recvd: nat) returns (data: seq<byte>)
      requires Reading(recvd) && last.bufs != []
      modifies this`delivered, last
      ensures data == Slice(old(Rest()), 0, left) && |data| <= left
      ensures peek ==> Reading(recvd) && last.bufs == old(last.bufs) && delivered == old(delivered)
      ensures !peek ==>
        Reading(recvd + |data|) && delivered == old(delivered) + data && (last.bufs == [] || |data| == left)
    {
      TotalOf(last.bufs);
      var copylen := if left > last.bufs[0].totLen then last.bufs[0].totLen else left;
      data := CopyPartial(last.bufs, copylen, 0);
      if !peek {
        Consume(copylen, recvd);
      }
    }

    /** One round of the loop of lwip_recv_tcp; without data it is not `got`. */
    method Round(left: nat, peek: bool, arrivals: seq<Arrival>, n: nat, ghost recvd: nat)
      returns (got: bool, data: seq<byte>)
      requires Reading(recvd) && n <= |arrivals| && forall a :: a in arrivals ==> ArrivalOk(a)
      modifies this`received, this`current, this`delivered, last
      ensures got <==> old(last.bufs) != [] || (n < |arrivals| && arrivals[n].Received?)
      ensures !got ==>
        data == [] && last.bufs == [] && received == old(received) && delivered == old(delivered) && Reading(recvd)
      ensures got ==> received == old(received) + if old(last.bufs) == [] then Flatten(arrivals[n].bufs) else []
      ensures got ==> data == Slice(old(Next(arrivals, n)), 0, left) && |data| <= left
      ensures got && peek ==> Reading(recvd) && Rest() == old(Next(arrivals, n)) && delivered == old(delivered)
      ensures peek && old(last.bufs) != [] ==> last.bufs == old(last.bufs)
      ensures got && !peek ==>
        Reading(recvd + |data|) && delivered == old(delivered) + data && (last.bufs == [] || |data| == left)
    {
      if last.bufs == [] {
        if n == |arrivals| || arrivals[n].Failed? {
          return false, [];
        }
        assert ArrivalOk(arrivals[n]);
        Fetch(arrivals[n].bufs, recvd);
      }
      data := Deliver(left, peek, recvd);
      got := true;
    }

    /** lwip_recv_tcp: `r` and the bytes written to memory. */
    method Recv(len: nat, peek: bool, arrivals: seq<Arrival>, connected: bool)
      returns (r: int, mem: seq<byte>, ghost used: nat)
      requires Valid() && forall a :: a in arrivals ==> ArrivalOk(a)
      modifies this, last
      ensures Valid() && used <= |arrivals| && received == old(received) + Handed(arrivals, used)
      ensures |mem| <= Min(len, SSIZE_MAX) && (r == |mem| || (mem == [] && r == Failure(arrivals, used)))
      ensures !peek && len > 0 && mem == [] ==> r == Failure(arrivals, used)
      ensures used < |arrivals| && arrivals[used].Failed? && r != |mem| ==> r == -1 && !arrivals[used].closed
      ensures used < |arrivals| && arrivals[used] == Failed(false) && mem == [] && !peek && len > 0 ==> r == -1
      ensures used < |arrivals| && arrivals[used] == Failed(true) && mem == [] && !peek && len > 0 ==> r == 0
      ensures old(last.bufs) == [] && (arrivals == [] || arrivals[0].Failed?) ==> r == Failure(arrivals, 0) && used == 0
      ensures !peek && |mem| < Min(len, SSIZE_MAX) && used < |arrivals| ==> arrivals[used].Failed?
      ensures !peek ==> delivered == old(delivered) + mem && window == old(window) + (if connected then |mem| else 0)
      ensures !peek && |mem| < Min(len, SSIZE_MAX) ==> Rest() == []
      ensures peek ==> delivered == old(delivered) && reported == old(reported) && window == old(window)
      ensures peek && r >= 0 ==> mem == Slice(Rest(), 0, Min(len, SSIZE_MAX))
      ensures peek && old(last.bufs) != [] ==> last.bufs == old(last.bufs) && received == old(received)
    {
      var left: nat := Min(len, SSIZE_MAX);
      if peek {
        r, mem, used := Peek(left, arrivals);
        return;
      }
      var n, failed;
      mem, n, failed := Read(left, arrivals);
      used := n;
      if failed && mem == [] {
        return Failure(arrivals, n), [], n;
      }
      r := |mem|;
      if r > 0 {
        reported := reported + r;
        TcpRecved(r, connected);
      }
    }

    /** A read with MSG_PEEK, which does one round only. */
    method Peek(len: nat, arrivals: seq<Arrival>) returns (r: int, mem: seq<byte>, ghost used: nat)
      requires Valid() && forall a :: a in arrivals ==> ArrivalOk(a)
      modifies this`received, this`current, this`delivered, last
      ensures Valid() && used <= |arrivals|
      ensures received == old(received) + Handed(arrivals, used) && delivered == old(delivered)
      ensures |mem| <= len && (r == |mem| || (mem == [] && r == Failure(arrivals, used)))
      ensures old(last.bufs) == [] && (arrivals == [] || arrivals[0].Failed?) ==> r == Failure(arrivals, 0) && used == 0
      ensures r >= 0 ==> mem == Slice(Rest(), 0, len)
      ensures old(last.bufs) != [] ==> last.bufs == old(last.bufs) && received == old(received)
    {
      used := if last.bufs == [] && arrivals != [] && arrivals[0].Received? then 1 else 0;
      assert Handed(arrivals, 0) == [];
      var got;
      got, mem := Round(len, true, arrivals, 0, 0);
      r := if got then |mem| else Failure(arrivals, 0);
    }

    /** The loop of a read that is no peek; `n` chains were taken from the connection. */
    method Read(len: nat, arrivals: seq<Arrival>) returns (mem: seq<byte>, n: nat, failed: bool)
      requires Valid() && forall a :: a in arrivals ==> ArrivalOk(a)
      modifies this`received, this`current, this`delivered, last
      ensures Reading(|mem|) && |mem| <= len && n <= |arrivals|
      ensures delivered == old(delivered) + mem && received == old(received) + Handed(arrivals, n)
      ensures |mem| < len ==> failed
      ensures failed ==> Rest() == [] && (n == |arrivals| || arrivals[n].Failed?)
      ensures old(last.bufs) == [] && (arrivals == [] || arrivals[0].Failed?) ==> failed && n == 0 && mem == []
    {
      mem, n, failed := [], 0, false;
      var left: nat := len;
      while true
        invariant Reading(|mem|) && delivered == old(delivered) + mem && left + |mem| == len
        invariant n <= |arrivals| && received == old(received) + Handed(arrivals, n) && !failed
        invariant old(last.bufs) == [] && (arrivals == [] || arrivals[0].Failed?) ==>
          n == 0 && mem == [] && last.bufs == []
        decreases |arrivals| - n, |last.bufs|
      {
        var fetch := last.bufs == [];
        var got, data := Round(left, false, arrivals, n, |mem|);
        if !got {
          failed := true;
          break;
        }
        if fetch {
          Assoc(old(received), Handed(arrivals, n), Flatten(arrivals[n].bufs));
          n := n + 1;
        }
        Assoc(old(delivered), mem, data);
        mem, left := mem + data, left - |data|;
        if left == 0 {
          break;
        }
      }
    }
  }

  /** The result of a read without data: 0 at the end of the stream, otherwise -1. */
  function Failure(arrivals: seq<Arrival>, n: nat): int {
    if n < |arrivals| && arrivals[n].Failed? && arrivals[n].closed then 0 else -1
  }
}
