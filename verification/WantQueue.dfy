/** The waiters for a connection, one by one and in their two-stage queue (client.go). */
module WantQueue {

  type Conn = nat

  /** What a waiter is told: a connection or an error; 0 stands for Go's nil. */
  class WantConn {
    var conn: Conn
    var err: nat
    var readyClosed: bool        // closing a closed channel would panic

    /** The ready channel is closed exactly when there is, or was, an answer. */
    ghost predicate Valid()
      reads this
    {
      readyClosed <==> conn != 0 || err != 0
    }

    constructor ()
      ensures Valid() && Waiting()
    {
      conn, err, readyClosed := 0, 0, false;
    }

    predicate Waiting()
      reads this
    {
      !readyClosed
    }

    method CloseReady()
      requires !readyClosed
      modifies this`readyClosed
      ensures readyClosed
    {
      readyClosed := true;
    }

    /** The first answer wins; a later one is refused. */
    method TryDeliver(c: Conn, e: nat) returns (delivered: bool)
      requires Valid() && (c != 0 || e != 0)
      modifies this
      ensures Valid() && !Waiting()
      ensures delivered == old(Waiting())
      ensures delivered ==> conn == c && err == e
      ensures !delivered ==> conn == old(conn) && err == old(err)
    {
      if conn != 0 || err != 0 {
        return false;
      }
      conn := c;
      err := e;
      CloseReady();
      delivered := true;
    }

    /** Gives up with an error. A connection that was delivered before is handed back to be released. */
    method Cancel(e: nat) returns (c: Conn)
      requires Valid() && e != 0
      modifies this
      ensures Valid() && !Waiting() && conn == 0 && err == e
      ensures c == old(conn)
    {
      if conn == 0 && err == 0 {
        CloseReady();
      }
      c := conn;
      conn := 0;
      err := e;
    }
  }

  /**
   * Two slices: waiters leave from head[headPos:] and come in at the end of tail. When the head is
   * used up the two change places, and the old head array is written again from its start.
   */
  class WantConnQueue {
    ghost var contents: seq<WantConn>    // the queue, front first
    var head: array<WantConn?>
    var headLen: nat
    var headPos: nat
    var tail: array<WantConn?>
    var tailLen: nat

    /** The two stages never share an array that could be written. */
    ghost predicate Valid()
      reads this, head, tail
    {
      && headPos <= headLen <= head.Length && tailLen <= tail.Length
      && head != tail
      && |contents| == headLen - headPos + tailLen
      && (forall i {:trigger head[i]} :: headPos <= i < headLen ==> head[i] == contents[i - headPos])
      && (forall i {:trigger tail[i]} :: 0 <= i < tailLen ==> tail[i] == contents[headLen - headPos + i])
    }

    constructor ()
      ensures Valid() && contents == [] && fresh(head) && fresh(tail)
    {
      head, headLen, headPos := new WantConn?[0](_ => null), 0, 0;
      tail, tailLen := new WantConn?[0](_ => null), 0;
      contents := [];
    }

    method Len() returns (n: nat)
      requires Valid()
      ensures n == |contents|
    {
      n := headLen - headPos + tailLen;
    }

    /** append(q.tail, w): in place while there is room, else into a larger array. */
    method PushBack(w: WantConn)
      requires Valid()
      modifies this, tail
      ensures Valid() && contents == old(contents) + [w]
      ensures head == old(head) && (tail == old(tail) || fresh(tail))
    {
      if tailLen == tail.Length {
        var size :| size > tailLen;
        var grown := new WantConn?[size](_ => null);
        forall i | 0 <= i < tailLen {
          grown[i] := tail[i];
        }
        tail := grown;
      }
      tail[tailLen] := w;
      tailLen := tailLen + 1;
      contents := contents + [w];
    }

    /** The two arrays, in either role. */
    ghost predicate SameArrays(a: array<WantConn?>, b: array<WantConn?>)
      reads this
    {
      (head == a && tail == b) || (head == b && tail == a)
    }

    method PopFront() returns (w: WantConn?)
      requires Valid()
      modifies this, head, tail
      ensures Valid() && SameArrays(old(head), old(tail))
      ensures old(contents) == [] ==> w == null && contents == []
      ensures old(contents) != [] ==> w == old(contents)[0] && contents == old(contents)[1..]
    {
      if headPos >= headLen {
        if tailLen == 0 {
          return null;
        }
        head, headLen, headPos, tail, tailLen := tail, tailLen, 0, head, 0;
      }
      w := head[headPos];
      head[headPos] := null;
      headPos := headPos + 1;
      contents := contents[1..];
    }

    method PeekFront() returns (w: WantConn?)
      requires Valid()
      ensures w == if contents == [] then null else contents[0]
    {
      if headPos < headLen {
        return head[headPos];
      }
      if tailLen > 0 {
        return tail[0];
      }
      w := null;
    }

    /** Takes the waiters that need no answer any more off the front, k of them, and no others. */
    method ClearFront() returns (cleaned: bool, ghost k: nat)
      requires Valid()
      modifies this, head, tail
      ensures Valid() && SameArrays(old(head), old(tail))
      ensures k <= |old(contents)| && contents == old(contents)[k..] && cleaned == (k > 0)
      ensures forall i :: 0 <= i < k ==> !old(contents)[i].Waiting()
      ensures contents != [] ==> contents[0].Waiting()
    {
      cleaned := false;
      ghost var q := contents;
      k := 0;
      while true
        invariant Valid() && SameArrays(old(head), old(tail))
        invariant k <= |q| && contents == q[k..] && cleaned == (k > 0)
        invariant forall i :: 0 <= i < k ==> !q[i].Waiting()
        decreases |q| - k
      {
        var w := PeekFront();
        if w == null || w.Waiting() {
          return;
        }
        var _ := PopFront();
        cleaned := true;
        k := k + 1;
      }
    }
  }
}
