/** AT_fill_rx_buffer: the byte-at-a-time line receiver fed by the UART
    interrupt. Each call is one atomic step of the model. */
module LineReceiver {

  import opened CStrings
  import opened RingBuffer
  import opened AtContext

  predicate IsTerminator(b: char) {
    b == CR || b == LF
  }

  /** One received byte. With a line already pending nothing changes. A CR
      or LF writes NUL at the index, keeps the index, and raises the flag;
      any other byte is stored at the index, which then advances and rolls
      over to 0 at the end of the buffer. Only the command buffer, its index
      and the flag ever change. */
  function FillRx(c: Context, b: char): (r: Context)
    requires c.Valid()
    ensures r.Valid()
    ensures r == c.(command := r.command, lineEnd := r.lineEnd)
    ensures c.AtRest() ==> r.AtRest()
    ensures c.lineEnd ==> r == c
    ensures !c.lineEnd && IsTerminator(b) ==>
              && r.lineEnd
              && r.command.size == c.command.size
              && r.command.buf[c.command.size] == NUL
              && forall i :: 0 <= i < CAPACITY && i != c.command.size ==> r.command.buf[i] == c.command.buf[i]
    ensures !c.lineEnd && !IsTerminator(b) ==>
              && !r.lineEnd
              && r.command.size == (c.command.size + 1) % CAPACITY
              && r.command.buf[c.command.size] == b
              && forall i :: 0 <= i < CAPACITY && i != c.command.size ==> r.command.buf[i] == c.command.buf[i]
  {
    if c.lineEnd then c
    else if IsTerminator(b) then
      c.(command := c.command.(buf := c.command.buf[c.command.size := NUL]), lineEnd := true)
    else
      c.(command := Put(c.command, b))
  }

  /** A sequence of bytes, one FillRx call each. */
  function Receive(c: Context, bytes: seq<char>): (r: Context)
    requires c.Valid()
    ensures r.Valid()
    ensures r == c.(command := r.command, lineEnd := r.lineEnd)
    decreases |bytes|
  {
    if bytes == [] then c else Receive(FillRx(c, bytes[0]), bytes[1..])
  }

  predicate NoTerminator(bytes: seq<char>) {
    forall i :: 0 <= i < |bytes| ==> !IsTerminator(bytes[i])
  }

  /** The flag latches: once a line is pending, every further byte is ignored. */
  lemma {:induction false} LatchIgnoresBytes(c: Context, bytes: seq<char>)
    requires c.Valid() && c.lineEnd
    ensures Receive(c, bytes) == c
    decreases |bytes|
  {
    if bytes != [] {
      LatchIgnoresBytes(FillRx(c, bytes[0]), bytes[1..]);
    }
  }

  /** Receiving ordinary bytes is appending them to the command ring: the
      index is the count modulo 128 and the flag stays clear. */
  lemma {:induction false} ReceiveAppends(c: Context, bytes: seq<char>)
    requires c.Valid() && !c.lineEnd && NoTerminator(bytes)
    ensures Receive(c, bytes) == c.(command := Append(c.command, bytes))
    ensures Receive(c, bytes).command.size == (c.command.size + |bytes|) % CAPACITY
    decreases |bytes|
  {
    if bytes != [] {
      var c1 := FillRx(c, bytes[0]);
      assert c1 == c.(command := Put(c.command, bytes[0]));
      ReceiveAppends(c1, bytes[1..]);
    }
  }

  /** From a reset receiver, a line of fewer than 128 bytes followed by CR or
      LF leaves exactly that line, NUL padded, with its length as the index and
      the flag raised; the terminator is not stored and later bytes change nothing. */
  lemma ReceiveLine(c: Context, line: seq<char>, t: char, rest: seq<char>)
    requires IsReset(c)
    requires NoTerminator(line) && |line| < CAPACITY && IsTerminator(t)
    ensures var r := Receive(c, line + [t] + rest);
            && r.lineEnd
            && r.command == Ring(line + Zeros(CAPACITY - |line|), |line|)
            && r == c.(command := r.command, lineEnd := true)
  {
    assert c.command == Empty();
    ReceiveAppends(c, line);
    ReceiveConcat(c, line, [t] + rest);
    AppendToEmpty(line);
    var c1 := Receive(c, line);
    assert c1.command == Ring(line + Zeros(CAPACITY - |line|), |line|);
    var c2 := FillRx(c1, t);
    assert ([t] + rest)[0] == t && ([t] + rest)[1..] == rest;
    assert c2.command.buf == (line + Zeros(CAPACITY - |line|))[|line| := NUL];
    assert c2.command.buf == line + Zeros(CAPACITY - |line|);
    LatchIgnoresBytes(c2, rest);
    assert line + [t] + rest == line + ([t] + rest);
  }

  lemma {:induction false} ReceiveConcat(c: Context, a: seq<char>, b: seq<char>)
    requires c.Valid()
    ensures Receive(c, a + b) == Receive(Receive(c, a), b)
    decreases |a|
  {
    if a == [] {
      assert a + b == b;
    } else {
      assert (a + b)[0] == a[0] && (a + b)[1..] == a[1..] + b;
      ReceiveConcat(FillRx(c, a[0]), a[1..], b);
    }
  }
}
