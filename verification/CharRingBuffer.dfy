/** char_ring_buffer.c: a circular byte buffer that represents a byte sequence. */
module CharRingBuffers {
  import opened Bytes
  import Bits

  /** What crb_peek_char and crb_get_next_char give back: a byte or EOF. */
  datatype MaybeByte = Got(byte: Byte) | Eof

  /** CRB_ERR_BUFFER_FULL */
  const BUFFER_FULL: int := -3

  /** One of the operations that change a ring buffer. */
  datatype RingOp = AddChar(c: Byte) | AddStr(src: Text) | AddStrStrict(src: Text) | AddCharStrict(c: Byte) | GetNext

  /** What an operation does to the sequence that a buffer of the given capacity represents. */
  function Effect(s: Text, capacity: nat, op: RingOp): Text
    requires |s| <= capacity
  {
    match op
    case AddChar(c) => LastN(s + [c], capacity)
    case AddStr(src) => LastN(s + src, capacity)
    case AddStrStrict(src) => s + src[..Min(|src|, capacity - |s|)]
    case AddCharStrict(c) => if |s| < capacity then s + [c] else s
    case GetNext => if s == [] then s else s[1..]
  }

  function Effects(s: Text, capacity: nat, ops: seq<RingOp>): (r: Text)
    requires |s| <= capacity
    ensures |r| <= capacity
  {
    if ops == [] then s
    else Effect(Effects(s, capacity, ops[..|ops| - 1]), capacity, ops[|ops| - 1])
  }

  // ---------------------------------------------------------------------------------------------
  //  The sequence that a circular buffer represents
  // ---------------------------------------------------------------------------------------------

  /** An index that has been moved on by less than a whole turn. */
  function Wrap(i: nat, capacity: nat): nat {
    if i < capacity then i else i - capacity
  }

  lemma WrapIsRemainder(i: nat, capacity: nat)
    requires 0 < capacity && i < 2 * capacity
    ensures i % capacity == Wrap(i, capacity)
  {
    var turns := if i < capacity then 0 else 1;
    Bits.DivUnique(i, capacity, turns, Wrap(i, capacity));
  }

  /** `length` bytes from `start` on, around the end of the buffer. */
  function View(buf: Text, start: nat, length: nat): (s: Text)
    requires start < |buf| && length <= |buf|
    ensures |s| == length
  {
    seq(length, i requires 0 <= i < length => buf[Wrap(start + i, |buf|)])
  }

  /** Writing behind the last byte appends it, and the oldest byte goes if there was no room. */
  lemma PushView(buf: Text, start: nat, length: nat, c: Byte)
    requires start < |buf| && length <= |buf|
    ensures var pushed := buf[Wrap(start + length, |buf|) := c];
            && (length < |buf| ==> View(pushed, start, length + 1) == View(buf, start, length) + [c])
            && (length == |buf| ==>
                  View(pushed, Wrap(start + 1, |buf|), length) == View(buf, start, length)[1..] + [c])
  {
    var pushed := buf[Wrap(start + length, |buf|) := c];
    if length < |buf| {
      forall i | 0 <= i < length + 1
        ensures View(pushed, start, length + 1)[i] == (View(buf, start, length) + [c])[i]
      {
        assert i < length ==> Wrap(start + i, |buf|) != Wrap(start + length, |buf|);
      }
    } else {
      var next := Wrap(start + 1, |buf|);
      forall i | 0 <= i < length
        ensures View(pushed, next, length)[i] == (View(buf, start, length)[1..] + [c])[i]
      {
        assert Wrap(next + i, |buf|) == if i == length - 1 then start else Wrap(start + i + 1, |buf|);
      }
    }
  }

  lemma PopView(buf: Text, start: nat, length: nat)
    requires start < |buf| && 0 < length <= |buf|
    ensures View(buf, start, length)[0] == buf[start]
    ensures View(buf, Wrap(start + 1, |buf|), length - 1) == View(buf, start, length)[1..]
  {
    var popped := View(buf, Wrap(start + 1, |buf|), length - 1);
    forall i | 0 <= i < length - 1
      ensures popped[i] == View(buf, start, length)[1..][i]
    {
      assert Wrap(Wrap(start + 1, |buf|) + i, |buf|) == Wrap(start + (i + 1), |buf|);
    }
    assert Wrap(start + 0, |buf|) == start;
  }

  lemma PushLastN(s: Text, c: Byte, n: nat)
    requires 0 < n && |s| <= n
    ensures LastN(s + [c], n) == if |s| < n then s + [c] else s[1..] + [c]
  {
    if |s| == n {
      assert (s + [c])[1..] == s[1..] + [c];
    }
  }

  class CharRingBuffer {
    var length: nat
    const capacity: nat
    var start: nat
    var end: nat
    const buffer: array<Byte>

    ghost predicate Valid()
      reads this
    {
      && 0 < capacity == buffer.Length
      && length <= capacity && start < capacity
      && end == Wrap(start + length, capacity)
    }

    ghost function Contents(): (s: Text)
      requires Valid()
      reads this, buffer
      ensures |s| == length
    {
      View(buffer[..], start, length)
    }

    /** crb_new_CharRingBuffer */
    constructor (capacity: nat)
      requires 0 < capacity
      ensures Valid() && Contents() == [] && this.capacity == capacity && fresh(buffer)
    {
      this.capacity := capacity;
      length, start, end := 0, 0, 0;
      buffer := new Byte[capacity](_ => 0);
    }

    /** The indices of the circular buffer are taken modulo the capacity. */
    method Advanced(i: nat, steps: nat) returns (r: nat)
      requires 0 < capacity && i < capacity && steps <= capacity
      ensures r == Wrap(i + steps, capacity)
    {
      WrapIsRemainder(i + steps, capacity);
      r := (i + steps) % capacity;
    }

    /** crb_add_char_to_buffer: a full buffer forgets its oldest byte. */
    method AddChar(c: Byte)
      requires Valid()
      modifies this, buffer
      ensures Valid()
      ensures Contents() == LastN(old(Contents()) + [c], capacity)
    {
      PushView(buffer[..], start, length, c);
      PushLastN(Contents(), c, capacity);
      ghost var before := buffer[..];
      buffer[end] := c;
      assert buffer[..] == before[end := c];
      if length == capacity {
        start := Advanced(start, 1);
      } else {
        length := length + 1;
      }
      end := Advanced(end, 1);
    }

    /** crb_add_str_to_buffer: only the last `capacity` bytes of a long source are added. */
    method AddStr(src: Text)
      requires Valid()
      modifies this, buffer
      ensures Valid()
      ensures Contents() == LastN(old(Contents()) + src, capacity)
    {
      hide LastN, View, Wrap;
      LastNOfFew(Contents(), capacity);
      if src == [] {
        assert Contents() + src == Contents();
        return;
      }
      var skip := if capacity < |src| then |src| - capacity else 0;
      var i := skip;
      ghost var before := Contents();
      assert before + src[skip..i] == before;
      while i < |src|
        invariant skip <= i <= |src|
        invariant Valid()
        invariant Contents() == LastN(before + src[skip..i], capacity)
      {
        AddChar(src[i]);
        LastNStep(before, src, skip, i, capacity);
        i := i + 1;
      }
      assert src[skip..|src|] == src[skip..];
      LastNSkips(before, src, skip, capacity);
    }

    /** crb_add_str_to_buffer_strict: never overwrites; CRB_ERR_BUFFER_FULL when the buffer was full already. */
    method AddStrStrict(src: Text) returns (added: int)
      requires Valid()
      modifies this, buffer
      ensures Valid()
      ensures Contents() == old(Contents()) + src[..Min(|src|, capacity - old(length))]
      ensures added == if 0 < |src| && old(length) == capacity then -3 else Min(|src|, capacity - old(length))
    {
      ghost var before := Contents();
      assert before + src[..0] == before;
      if 0 < |src| && capacity <= length {
        return BUFFER_FULL;
      }
      var n := 0;
      while n < |src| && length < capacity
        invariant 0 <= n <= |src|
        invariant Valid() && length == |before| + n
        invariant Contents() == before + src[..n]
      {
        PushView(buffer[..], start, length, src[n]);
        ghost var now := buffer[..];
        buffer[end] := src[n];
        assert buffer[..] == now[end := src[n]];
        end := Advanced(end, 1);
        length := length + 1;
        assert before + src[..n] + [src[n]] == before + src[..n + 1];
        n := n + 1;
      }
      added := n;
    }

    /** crb_add_char_to_buffer_strict */
    method AddCharStrict(c: Byte) returns (added: int)
      requires Valid()
      modifies this, buffer
      ensures Valid()
      ensures Contents() == if old(length) < capacity then old(Contents()) + [c] else old(Contents())
      ensures added == if old(length) < capacity then 1 else -3
    {
      if capacity <= length {
        return BUFFER_FULL;
      }
      PushView(buffer[..], start, length, c);
      ghost var before := buffer[..];
      buffer[end] := c;
      assert buffer[..] == before[end := c];
      end := Advanced(end, 1);
      length := length + 1;
      return 1;
    }

    /** crb_get_next_char */
    method GetNextChar() returns (c: MaybeByte)
      requires Valid()
      modifies this
      ensures Valid()
      ensures c == if old(Contents()) == [] then Eof else Got(old(Contents())[0])
      ensures Contents() == if old(Contents()) == [] then [] else old(Contents())[1..]
    {
      if length == 0 {
        return Eof;
      }
      PopView(buffer[..], start, length);
      length := length - 1;
      c := Got(buffer[start]);
      start := Advanced(start, 1);
    }

    /** crb_peek_char */
    method PeekChar(offset: nat) returns (c: MaybeByte)
      requires Valid()
      ensures c == if offset < |Contents()| then Got(Contents()[offset]) else Eof
    {
      if length <= offset {
        return Eof;
      }
      var index := Advanced(start, offset);
      c := Got(buffer[index]);
    }

    /** crb_sprint_buffer: the bytes in order, across the wrap-around, and a terminator. */
    method Sprint(out: array<Byte>)
      requires Valid() && length < out.Length && out != buffer
      modifies out
      ensures out[..length] == Contents() && out[length] == NUL
      ensures out[length + 1..] == old(out[length + 1..])
    {
      ghost var contents := Contents();
      var index, written := start, 0;
      while index < capacity && written < length
        invariant index == start + written && written <= length && index <= capacity
        invariant out[..written] == contents[..written]
        invariant out[length + 1..] == old(out[length + 1..])
      {
        assert contents[written] == buffer[..][Wrap(start + written, capacity)];
        out[written] := buffer[index];
        written, index := written + 1, index + 1;
      }
      if end <= start {
        index := 0;
        while index <= end && written < length
          invariant written <= length && index <= capacity
          invariant written < length ==> start + written == capacity + index
          invariant out[..written] == contents[..written]
          invariant out[length + 1..] == old(out[length + 1..])
        {
          assert contents[written] == buffer[..][Wrap(start + written, capacity)];
          out[written] := buffer[index];
          written, index := written + 1, index + 1;
        }
      }
      assert written == length;
      out[length] := NUL;
    }
  }

  lemma LastNOfFew(s: Text, n: nat)
    requires |s| <= n
    ensures LastN(s, n) == s
  {
  }

  lemma LastNTwice(s: Text, c: Byte, n: nat)
    requires 0 < n
    ensures LastN(LastN(s, n) + [c], n) == LastN(s + [c], n)
  {
  }

  lemma LastNStep(before: Text, src: Text, skip: nat, i: nat, n: nat)
    requires 0 < n && skip <= i < |src|
    ensures LastN(LastN(before + src[skip..i], n) + [src[i]], n) == LastN(before + src[skip..i + 1], n)
  {
    hide LastN;
    LastNTwice(before + src[skip..i], src[i], n);
    assert before + src[skip..i] + [src[i]] == before + src[skip..i + 1];
  }

  /** Bytes that would be overwritten before the end of the source need not be written at all. */
  lemma LastNSkips(s: Text, src: Text, skip: nat, n: nat)
    requires skip == if n < |src| then |src| - n else 0
    ensures LastN(s + src[skip..], n) == LastN(s + src, n)
  {
  }

  /** Adding a string is adding its bytes one by one. */
  lemma {:induction false} AddStrIsAddChars(s: Text, capacity: nat, src: Text)
    requires 0 < capacity && |s| <= capacity
    ensures Effect(s, capacity, AddStr(src)) == Effects(s, capacity, CharOps(src))
  {
    if src == [] {
      assert s + src == s;
    } else {
      var init, c := src[..|src| - 1], src[|src| - 1];
      assert src == init + [c];
      var ops := CharOps(src);
      assert ops[..|ops| - 1] == CharOps(init);
      AddStrIsAddChars(s, capacity, init);
      LastNTwice(s + init, c, capacity);
      assert s + init + [c] == s + src;
    }
  }

  function CharOps(src: Text): seq<RingOp> {
    seq(|src|, i requires 0 <= i < |src| => RingOp.AddChar(src[i]))
  }

  /** Any run of operations on a new buffer. */
  method Run(capacity: nat, ops: seq<RingOp>) returns (crb: CharRingBuffer)
    requires 0 < capacity
    ensures fresh(crb) && crb.Valid() && crb.capacity == capacity
    ensures crb.Contents() == Effects([], capacity, ops)
  {
    crb := new CharRingBuffer(capacity);
    var i := 0;
    while i < |ops|
      invariant 0 <= i <= |ops|
      invariant crb.Valid() && crb.capacity == capacity && fresh(crb) && fresh(crb.buffer)
      invariant crb.Contents() == Effects([], capacity, ops[..i])
      decreases |ops| - i
    {
      match ops[i] {
        case AddChar(c) => crb.AddChar(c);
        case AddStr(src) => crb.AddStr(src);
        case AddStrStrict(src) => var n := crb.AddStrStrict(src);
        case AddCharStrict(c) => var n := crb.AddCharStrict(c);
        case GetNext => var c := crb.GetNextChar();
      }
      assert ops[..i + 1][..i] == ops[..i];
      i := i + 1;
    }
    assert ops[..i] == ops;
  }
}
