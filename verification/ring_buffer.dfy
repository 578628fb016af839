/** The fixed 128-character buffer with a write index that both the AT
    command buffer and the AT reply buffer use: a character is stored at the
    index, the index is incremented, and it rolls over to 0 when it reaches
    the capacity. */
module RingBuffer {

  import opened CStrings

  const CAPACITY: nat := 128

  datatype Ring = Ring(buf: seq<char>, size: nat) {
    predicate Valid() {
      |buf| == CAPACITY && size < CAPACITY
    }
  }

  /** A cleared buffer: all NUL, index 0. */
  function Empty(): (r: Ring)
    ensures r.Valid() && r.size == 0 && AllNul(r.buf)
  {
    Ring(Zeros(CAPACITY), 0)
  }

  /** Slot written by the k-th character of an append that starts at `start`. */
  function Slot(start: nat, k: nat): nat {
    (start + k) % CAPACITY
  }

  /** How many characters after `start` an append reaches slot `i` (in [0, CAPACITY)). */
  function Offset(start: nat, i: nat): nat
    requires start < CAPACITY && i < CAPACITY
  {
    if start <= i then i - start else i + CAPACITY - start
  }

  /** Store one character and advance the index with rollover. */
  function Put(r: Ring, c: char): (r': Ring)
    requires r.Valid()
    ensures r'.Valid()
    ensures r'.buf[r.size] == c
    ensures forall i :: 0 <= i < CAPACITY && i != r.size ==> r'.buf[i] == r.buf[i]
    ensures r'.size == Slot(r.size, 1)
  {
    var next := r.size + 1;
    Ring(r.buf[r.size := c], if next >= CAPACITY then 0 else next)
  }

  /** Store every character of `s` in order. */
  function Append(r: Ring, s: seq<char>): (r': Ring)
    requires r.Valid()
    ensures r'.Valid()
    ensures r'.size == Slot(r.size, |s|)
    decreases |s|
  {
    if s == [] then r
    else
      var r1 := Put(r, s[0]);
      var r' := Append(r1, s[1..]);
      assert Slot(r1.size, |s| - 1) == Slot(r.size, |s|);
      r'
  }

  /** Only the last CAPACITY characters of an append survive: each sits at its
      slot, and slots the append never reached keep their previous contents. */
  lemma {:induction false} AppendWindow(r: Ring, s: seq<char>)
    requires r.Valid()
    ensures forall k {:trigger Slot(r.size, k)} :: 0 <= k < |s| && |s| - k <= CAPACITY ==> Append(r, s).buf[Slot(r.size, k)] == s[k]
    ensures forall i {:trigger Offset(r.size, i)} :: 0 <= i < CAPACITY && Offset(r.size, i) >= |s| ==> Append(r, s).buf[i] == r.buf[i]
    decreases |s|
  {
    if s != [] {
      var r1 := Put(r, s[0]);
      AppendWindow(r1, s[1..]);
      assert forall k :: 1 <= k < |s| ==> Slot(r1.size, k - 1) == Slot(r.size, k);
      assert forall i :: 0 <= i < CAPACITY && i != r.size ==> Offset(r1.size, i) + 1 == Offset(r.size, i);
      assert |s| <= CAPACITY ==> Offset(r1.size, r.size) == CAPACITY - 1;
    }
  }

  /** Appending in two steps is appending the concatenation. */
  lemma {:induction false} AppendConcat(r: Ring, a: seq<char>, b: seq<char>)
    requires r.Valid()
    ensures Append(Append(r, a), b) == Append(r, a + b)
    decreases |a|
  {
    if a != [] {
      var r1 := Put(r, a[0]);
      assert (a + b)[0] == a[0];
      assert (a + b)[1..] == a[1..] + b;
      assert Append(r, a) == Append(r1, a[1..]);
      assert Append(r, a + b) == Append(r1, a[1..] + b);
      AppendConcat(r1, a[1..], b);
    } else {
      assert a + b == b;
    }
  }

  /** Without rollover, an append writes `s` right after the index and leaves the rest alone. */
  lemma AppendNoWrap(r: Ring, s: seq<char>)
    requires r.Valid() && r.size + |s| < CAPACITY
    ensures Append(r, s) == Ring(r.buf[..r.size] + s + r.buf[r.size + |s|..], r.size + |s|)
  {
    var r' := Append(r, s);
    var expected := r.buf[..r.size] + s + r.buf[r.size + |s|..];
    forall i | 0 <= i < CAPACITY
      ensures r'.buf[i] == expected[i]
    {
      AppendNoWrapAt(r, s, i);
    }
    assert r'.buf == expected;
  }

  lemma AppendNoWrapAt(r: Ring, s: seq<char>, i: nat)
    requires r.Valid() && r.size + |s| < CAPACITY && i < CAPACITY
    ensures Append(r, s).buf[i] == (r.buf[..r.size] + s + r.buf[r.size + |s|..])[i]
  {
    var expected := r.buf[..r.size] + s + r.buf[r.size + |s|..];
    if r.size <= i < r.size + |s| {
      assert expected[i] == s[i - r.size];
      AppendWritten(r, s, i - r.size);
    } else {
      assert expected[i] == r.buf[i];
      AppendUntouched(r, s, i);
    }
  }

  lemma AppendWritten(r: Ring, s: seq<char>, k: nat)
    requires r.Valid() && r.size + |s| < CAPACITY && k < |s|
    ensures Append(r, s).buf[r.size + k] == s[k]
  {
    AppendWindow(r, s);
    SlotNoWrap(r.size, k);
    assert Append(r, s).buf[Slot(r.size, k)] == s[k];
  }

  lemma AppendUntouched(r: Ring, s: seq<char>, i: nat)
    requires r.Valid() && r.size + |s| < CAPACITY && i < CAPACITY
    requires i < r.size || r.size + |s| <= i
    ensures Append(r, s).buf[i] == r.buf[i]
  {
    AppendWindow(r, s);
    assert Offset(r.size, i) >= |s|;
  }

  lemma SlotNoWrap(start: nat, k: nat)
    requires start + k < CAPACITY
    ensures Slot(start, k) == start + k
  {
  }

  /** Appending `s` to a cleared buffer, without rollover, leaves `s` followed by NULs. */
  lemma AppendToEmpty(s: seq<char>)
    requires |s| < CAPACITY
    ensures Append(Empty(), s) == Ring(s + Zeros(CAPACITY - |s|), |s|)
  {
    var e := Empty();
    AppendNoWrap(e, s);
    EmptyTail(|s|);
    assert e.buf[..0] + s == s;
  }

  lemma EmptyTail(n: nat)
    requires n <= CAPACITY
    ensures Empty().buf[n..] == Zeros(CAPACITY - n)
  {
  }

  /** Once CAPACITY or more characters have been appended to a cleared buffer,
      no terminator is left in it: a C reader of the whole buffer finds no end. */
  lemma FullAppendLeavesNoTerminator(s: seq<char>)
    requires NulFree(s) && |s| >= CAPACITY
    ensures NulFree(Append(Empty(), s).buf)
  {
    var r' := Append(Empty(), s);
    AppendWindow(Empty(), s);
    var m := |s| - CAPACITY;
    var q := m / CAPACITY;
    forall i | 0 <= i < CAPACITY
      ensures r'.buf[i] != NUL
    {
      var k := if CAPACITY * q + i >= m then CAPACITY * q + i else CAPACITY * (q + 1) + i;
      SlotOfAligned(if CAPACITY * q + i >= m then q else q + 1, i);
      assert r'.buf[Slot(0, k)] == s[k];
    }
  }

  lemma SlotOfAligned(q: nat, i: nat)
    requires i < CAPACITY
    ensures Slot(0, CAPACITY * q + i) == i
  {
  }
}
