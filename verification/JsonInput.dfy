/** The in-memory string source of json_parser.c: a byte cursor with a look-behind buffer. */
module JsonInput {
  import opened Bytes
  import opened JsonBytes
  import opened CharRingBuffers
  import Spec = JsonParserSpec

  /** LOOK_AHEAD_BUF_SIZE, which is also the capacity of the look-behind buffer */
  const LOOK_BEHIND: nat := 40

  class Input {
    const text: Text
    var index: nat
    const lookBehind: CharRingBuffer

    /** The cursor stays inside the text, and the look-behind buffer holds exactly the last 40 bytes before it. */
    ghost predicate Valid(): (r: bool)
      reads this, lookBehind, lookBehind.buffer
      ensures r ==> index <= |text|
    {
      && index <= |text|
      && lookBehind.Valid() && lookBehind.capacity == 40
      && lookBehind.Contents() == LastN(text[..index], 40)
    }

    /** The text ahead of the cursor. */
    ghost function Rest(): Text
      requires index <= |text|
      reads this
    {
      text[index..]
    }

    constructor (text: Text)
      ensures Valid() && this.text == text && Rest() == text
      ensures fresh(lookBehind) && fresh(lookBehind.buffer)
    {
      var crb := new CharRingBuffer(LOOK_BEHIND);
      this.text := text;
      index := 0;
      lookBehind := crb;
    }

    /** string_current_char: the terminating NUL at the end */
    method CurrentChar() returns (c: Byte)
      requires Valid()
      ensures c == Spec.Cur(Rest())
    {
      c := if index == |text| then NUL else text[index];
    }

    /** string_peek_next_char */
    method PeekNextChar() returns (c: Byte)
      requires Valid()
      ensures c == Spec.Peek(Rest())
    {
      c := if |text| <= index + 1 then EOF_BYTE else text[index + 1];
    }

    /** pvt_starts_with_bom, through string_peek_lookahead_chars, whose EOF differs from every unsigned byte */
    method StartsWith(bytes: Text) returns (r: bool)
      requires Valid()
      ensures r <==> bytes <= Rest()
    {
      var i := 0;
      while i < |bytes|
        invariant i <= |bytes| && bytes[..i] <= Rest()
      {
        if |text| <= index + i || text[index + i] != bytes[i] {
          return false;
        }
        i := i + 1;
      }
      return true;
    }

    /** string_advance_n_bytes: the look-behind buffer takes the bytes that are passed, or the last 40 of them.
        More than one byte is copied with "%s", which is why there must be no NUL among them. */
    method Advance(n: nat)
      requires Valid() && index + n <= |text|
      requires 1 < n ==> NulFree(text[index..index + n])
      modifies this`index, lookBehind, lookBehind.buffer
      ensures Valid() && index == old(index) + n
      ensures Rest() == old(Rest())[n..]
    {
      hide LastN;
      ghost var before := text[..index];
      if n == 1 {
        LastNTwice(before, text[index], LOOK_BEHIND);
        lookBehind.AddChar(text[index]);
        assert before + [text[index]] == text[..index + 1];
      } else if 1 < n {
        var kept := Min(n, LOOK_BEHIND);
        PassingKeepsLast(text, index, n);
        lookBehind.AddStr(text[index + n - kept..index + n]);
      }
      index := index + n;
    }
  }

  /** Only the last 40 of the bytes that are passed matter for what the buffer holds. */
  lemma PassingKeepsLast(text: Text, index: nat, n: nat)
    requires index + n <= |text|
    ensures var kept := Min(n, LOOK_BEHIND);
            LastN(LastN(text[..index], LOOK_BEHIND) + text[index + n - kept..index + n], LOOK_BEHIND)
            == LastN(text[..index + n], LOOK_BEHIND)
  {
  }
}
