/**
 The write engine of api_msg.c: one netconn_write of several vectors, carried on by repeated calls
 as the send buffer allows.

 What tcp_sndbuf, tcp_write and tcp_output answer is input. `sent` collects the bytes that
 tcp_write has accepted.
 */
module NetconnWrite {
  import opened Common

  datatype Err = OK | MEM | WOULDBLOCK | RTE | FATAL

  /** What tcp_sndbuf and then tcp_write answer in one round. */
  datatype Answer = Answer(available: nat, result: WriteResult)

  datatype WriteResult = ACCEPTED | NO_MEMORY | REFUSED

  /**
   What tcp_write answers for `len` bytes: ERR_MEM only if there are any, since tcp_write_checks passes a
   length of 0 (tcp_out.c:319-320) and no memory is asked for behind it (tcp_out.c:534 and 600).
   */
  function Outcome(a: Answer, len: nat): WriteResult {
    if len == 0 && a.result == NO_MEMORY then ACCEPTED else a.result
  }

  // ----- vectors as one byte sequence -----

  /** What the first vectors hold is a prefix of what all hold. */
  lemma {:induction false} ConcatPrefix(vectors: seq<seq<byte>>, i: nat)
    requires i <= |vectors|
    ensures Concat(vectors[..i]) <= Concat(vectors)
    decreases |vectors| - i
  {
    if i == |vectors| {
      assert vectors[..i] == vectors;
    } else {
      ConcatPrefix(vectors, i + 1);
      ConcatTo(vectors, i);
    }
  }

  function Length(vectors: seq<seq<byte>>): nat {
    if vectors == [] then 0 else Length(vectors[..|vectors| - 1]) + |vectors[|vectors| - 1]|
  }

  lemma {:induction false} LengthIs(vectors: seq<seq<byte>>)
    ensures Length(vectors) == |Concat(vectors)|
  {
    if vectors != [] {
      LengthIs(vectors[..|vectors| - 1]);
    }
  }

  /** The byte position that a vector and an offset in it denote. */
  ghost function Position(vectors: seq<seq<byte>>, vec: nat, off: nat): nat
    requires vec <= |vectors|
  {
    |Concat(vectors[..vec])| + off
  }

  /** The end of a vector is the beginning of the next. */
  lemma NextVector(vectors: seq<seq<byte>>, vec: nat)
    requires vec < |vectors|
    ensures Position(vectors, vec, |vectors[vec]|) == Position(vectors, vec + 1, 0)
  {
    ConcatTo(vectors, vec);
  }

  /** A piece of a vector is a piece of the whole. */
  lemma PieceAt(vectors: seq<seq<byte>>, vec: nat, off: nat, len: nat)
    requires vec < |vectors| && off + len <= |vectors[vec]|
    ensures var p := Position(vectors, vec, off);
      p + len <= |Concat(vectors)| && Concat(vectors)[p..p + len] == vectors[vec][off..off + len]
  {
    VectorIn(vectors, vec);
    SubPiece(Concat(vectors), Concat(vectors[..vec]), vectors[vec], off, len);
  }

  lemma VectorIn(vectors: seq<seq<byte>>, vec: nat)
    requires vec < |vectors|
    ensures Concat(vectors[..vec]) + vectors[vec] <= Concat(vectors)
  {
    ConcatTo(vectors, vec);
    ConcatPrefix(vectors, vec + 1);
  }

  lemma Extend(whole: seq<byte>, n: nat, len: nat)
    requires n + len <= |whole|
    ensures whole[..n] + whole[n..n + len] == whole[..n + len]
  {
  }

  lemma SubPiece(whole: seq<byte>, first: seq<byte>, v: seq<byte>, off: nat, len: nat)
    requires first + v <= whole && off + len <= |v|
    ensures whole[|first| + off..|first| + off + len] == v[off..off + len]
  {
    forall j | |first| + off <= j < |first| + off + len ensures whole[j] == v[j - |first|] {
      assert (first + v)[j] == v[j - |first|];
    }
  }

  /** At the end of the last vector all bytes lie behind. */
  lemma EndIsAll(vectors: seq<seq<byte>>)
    requires vectors != []
    ensures Position(vectors, |vectors| - 1, |vectors[|vectors| - 1]|) == |Concat(vectors)|
  {
    NextVector(vectors, |vectors| - 1);
    assert vectors[..|vectors|] == vectors;
  }

  /** The send buffer always has room, and tcp_write takes everything. */
  ghost predicate AllRoom(answers: seq<Answer>) {
    forall a :: a in answers ==> a.available >= 0xFFFF && a.result == ACCEPTED
  }

  /** write_more: the piece was cut off at 16 bits, or (u16_t)diff bytes go and there are more vectors. */
  predicate GoesOn(len: nat, diff: nat, cnt: nat) {
    (len == 0xFFFF && diff > 0xFFFF) || (len == diff % 0x1_0000 && cnt > 1)
  }

  // ----- the message -----

  class Write {
    const vectors: seq<seq<byte>>
    const dontblock: bool
    /** msg.w.vector, msg.w.vector_cnt, msg.w.vector_off and msg.w.offset. */
    var vec: nat
    var cnt: nat
    var vecOff: nat
    var offset: nat
    /** The message is still the connection's current_msg. */
    var writing: bool
    var err: Err
    ghost var sent: seq<byte>

    /** What tcp_write accepted is the first `offset` bytes, and (vec, vecOff) is that position. */
    ghost predicate Valid()
      reads this
    {
      && vec < |vectors| && vecOff <= |vectors[vec]|
      && (if cnt == 0 then vec + 1 == |vectors| && vecOff == |vectors[vec]| else vec + cnt == |vectors|)
      && offset == Position(vectors, vec, vecOff) <= |Concat(vectors)|
      && sent == Concat(vectors)[..offset]
    }

    /** lwip_netconn_do_write with at least one vector. */
    constructor (vectors: seq<seq<byte>>, dontblock: bool)
      requires vectors != []
      ensures Valid() && this.vectors == vectors && this.dontblock == dontblock && offset == 0 && writing && cnt > 0
    {
      this.vectors, this.dontblock := vectors, dontblock;
      vec, cnt, vecOff, offset, writing, err, sent := 0, |vectors|, 0, 0, true, OK, [];
    }

    /** tcp_write accepted `len` bytes at the current position. */
    method Advance(len: nat)
      requires Valid() && cnt > 0 && vecOff + len <= |vectors[vec]|
      modifies this`vec, this`cnt, this`vecOff, this`offset, this`sent
      ensures Valid() && offset == old(offset) + len && cnt + vec == |vectors| - (if cnt == 0 then 1 else 0)
      ensures cnt == 0 <==> old(cnt) == 1 && old(vecOff) + len == |vectors[old(vec)]|
      ensures if old(cnt) > 1 && old(vecOff) + len == |vectors[old(vec)]|
              then vec == old(vec) + 1 && vecOff == 0
              else vec == old(vec) && vecOff == old(vecOff) + len
    {
      PieceAt(vectors, vec, vecOff, len);
      NextVector(vectors, vec);
      Extend(Concat(vectors), offset, len);
      sent := sent + vectors[vec][vecOff..vecOff + len];
      offset := offset + len;
      vecOff := vecOff + len;
      if vecOff == |vectors[vec]| {
        cnt := cnt - 1;
        if cnt > 0 {
          vec := vec + 1;
          vecOff := 0;
        }
      }
    }

    /** The rest of the vector is not empty, but its length as a u16_t is 0, and more vectors follow. */
    ghost predicate Spins()
      reads this
      requires vec < |vectors| && vecOff <= |vectors[vec]|
    {
      !dontblock && cnt > 1 && vecOff < |vectors[vec]| && (|vectors[vec]| - vecOff) % 0x1_0000 == 0
    }

    /**
     One round of the loop of lwip_netconn_do_writemore: offer a piece of the current vector to
     tcp_write. `again` is write_more, `blocked` the jump to err_mem of a non-blocking write.
     */
    method Round(a: Answer) returns (again: bool, blocked: bool, e: Err)
      requires Valid() && cnt > 0
      modifies this`vec, this`cnt, this`vecOff, this`offset, this`sent
      ensures Valid() && old(offset) <= offset <= old(offset) + 0xFFFF && offset - old(offset) <= a.available
      ensures blocked || e != OK ==>
        offset == old(offset) && vec == old(vec) && vecOff == old(vecOff) && cnt == old(cnt)
      ensures blocked <==> dontblock && a.available == 0 && old(vecOff) < |vectors[old(vec)]|
      ensures blocked ==> e == if offset == 0 then WOULDBLOCK else OK
      ensures !blocked ==>
        var diff := |vectors[old(vec)]| - old(vecOff);
        var len := Min(a.available, Min(diff, 0xFFFF));
        && e == (match Outcome(a, len) case ACCEPTED => OK case NO_MEMORY => MEM case REFUSED => FATAL)
        && again == GoesOn(len, diff, old(cnt)) && (e == OK ==> offset == old(offset) + len)
        && (again <==> (len == 0xFFFF && diff > 0xFFFF) || (len == diff % 0x1_0000 && old(cnt) > 1))
      ensures !blocked && !again && e == OK ==> cnt == 0 || offset == old(offset) + a.available
      ensures !blocked && e == OK && !again && a.available >= 0xFFFF ==> cnt == 0
      ensures again && e == OK ==> cnt > 0
      ensures e == MEM ==> vecOff < |vectors[vec]|
      ensures again && e == OK ==> old(vec) <= vec
      ensures again && e == OK && offset == old(offset) && vec == old(vec) <==>
        a.available == 0 && old(Spins()) && a.result != REFUSED
    {
      again, blocked, e := false, false, OK;
      var diff := |vectors[vec]| - vecOff;
      var len: nat := if diff > 0xFFFF then 0xFFFF else diff;
      if a.available < len {
        len := a.available;
        if dontblock && len == 0 {
          e := if offset == 0 then WOULDBLOCK else OK;
          blocked := true;
          return;
        }
      }
      again := GoesOn(len, diff, cnt);
      match Outcome(a, len)
      case ACCEPTED =>
        Advance(len);
      case NO_MEMORY =>
        e := MEM;
      case REFUSED =>
        e := FATAL;
    }

    /** The rest of lwip_netconn_do_writemore, from the last round on; `route` is whether tcp_output finds one. */
    method Finish(e: Err, route: bool)
      requires Valid() && (e == WOULDBLOCK ==> offset == 0)
      modifies this`writing, this`err
      ensures writing <==> old(writing) && route && !dontblock && (e == MEM || (e == OK && offset < |Concat(vectors)|))
      ensures old(writing) && !writing ==>
        err == if (e == OK || e == MEM) && !route then RTE
               else if e == MEM then (if offset == 0 then WOULDBLOCK else OK) else e
    {
      var result, finished := e, false;
      if e == OK {
        if offset == TotalLength() || dontblock {
          finished := true;
        }
        if !route {
          result, finished := RTE, true;
        }
      } else if e == MEM {
        if !route {
          result, finished := RTE, true;
        } else if dontblock {
          result, finished := if offset == 0 then WOULDBLOCK else OK, true;
        }
      } else {
        finished := true;
      }
      if finished {
        err, writing := result, false;
      }
    }

    /** msg.w.len. */
    function TotalLength(): (r: nat)
      ensures r == |Concat(vectors)|
    {
      LengthIs(vectors);
      Length(vectors)
    }

    /** The loop of lwip_netconn_do_writemore; `cut` if it is not over when the answers end. */
    method Rounds(answers: seq<Answer>) returns (cut: bool, e: Err)
      requires Valid() && writing && cnt > 0
      modifies this
      ensures Valid() && old(sent) <= sent && writing && (cut ==> cnt > 0)
      ensures (e == WOULDBLOCK ==> offset == 0) && (e == MEM ==> cnt > 0 && vecOff < |vectors[vec]|)
      ensures !cut && AllRoom(answers) ==> e == OK && cnt == 0
      ensures |answers| >= |Concat(vectors)| + |vectors| && (forall a :: a in answers ==> a.available > 0) ==> !cut
      ensures old(Spins()) && (forall a :: a in answers ==> a.available == 0 && a.result != REFUSED) ==> cut
    {
      var n, again := 0, true;
      cut, e := false, OK;
      while again && e == OK
        invariant Valid() && old(sent) <= sent && n <= |answers| && writing && (again && e == OK ==> cnt > 0)
        invariant (e == WOULDBLOCK ==> offset == 0) && (e == MEM ==> cnt > 0 && vecOff < |vectors[vec]|)
        invariant AllRoom(answers) ==> e == OK && (again || cnt == 0)
        invariant again && e == OK && (forall a :: a in answers ==> a.available > 0) ==> offset + vec >= n
        invariant old(Spins()) && (forall a :: a in answers ==> a.available == 0 && a.result != REFUSED) ==>
          again && e == OK && Spins()
        decreases |answers| - n
      {
        if n == |answers| {
          return true, e;
        }
        var blocked;
        again, blocked, e := Round(answers[n]);
        n := n + 1;
        if blocked {
          break;
        }
      }
    }

    /**
     lwip_netconn_do_writemore, called first and then whenever there is room again: whatever the
     answers are, the bytes sent so far stay a prefix. A call that leaves the write going on leaves it so
     that the assertions at the beginning (api_msg.c:1659-1661) hold for the next. `answers` are those of
     the rounds; a call that is still in its loop when they end stops there.
     */
    method WriteMore(answers: seq<Answer>, route: bool) returns (ended: bool)
      requires Valid() && writing && cnt > 0
      modifies this
      ensures Valid() && old(sent) <= sent
      ensures !ended ==> writing && cnt > 0
      ensures ended && writing ==> cnt > 0 && offset < |Concat(vectors)|
      ensures ended && !writing && err == OK && !dontblock ==> sent == Concat(vectors)
      ensures ended && !writing && err == WOULDBLOCK ==> sent == []
      ensures ended && AllRoom(answers) ==> sent == Concat(vectors)
      ensures |answers| >= |Concat(vectors)| + |vectors| && (forall a :: a in answers ==> a.available > 0) ==> ended
      ensures old(Spins()) && (forall a :: a in answers ==> a.available == 0 && a.result != REFUSED) ==> !ended
    {
      var cut, e := Rounds(answers);
      if cut {
        return false;
      }
      if cnt == 0 {
        EndIsAll(vectors);
      } else if vecOff < |vectors[vec]| {
        PieceAt(vectors, vec, vecOff, 1);
      }
      Finish(e, route);
      ended := true;
    }
  }

  /**
   A write that does not get on: 65536 bytes and more behind them, and a full send buffer. The loop goes on,
   with the core locked, as long as the buffer stays full.
   */
  method FullBuffer(n: nat) returns (ended: bool)
    ensures !ended
  {
    var w := new Write([seq(0x1_0000, _ => 0), [1]], false);
    ended := w.WriteMore(seq(n, _ => Answer(0, ACCEPTED)), true);
  }
}
