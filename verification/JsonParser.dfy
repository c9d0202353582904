/** The recursive descent of json_parser.c over a mutable cursor. Every method is proved to compute what the
    function of the same name in JsonParserSpec says, to keep the look-behind buffer in step with the cursor and
    to leave depth_current as it found it, whether it succeeds or fails. Where the source leaves its own memory, the
    model stops with MemoryOverrun. */
module JsonParser {
  import opened Bytes
  import opened JsonBytes
  import opened JsonValues
  import opened Wrappers
  import opened GrowingArenas
  import opened GrowingBuilders
  import opened JsonInput
  import opened JsonScratch
  import Spec = JsonParserSpec
  import Utf8

  // ---------------------------------------------------------------------------------------------
  //  Linked lists of parsed values
  // ---------------------------------------------------------------------------------------------

  /** JsonValueNode and JsonObjectEntryNode: new nodes are put in front. */
  datatype List<+T> = Nil | Node(head: T, next: List<T>) {
    function InOrder(): seq<T> {
      if Nil? then [] else next.InOrder() + [head]
    }
  }

  /** The loop that fills an array from a list, from the last index down. */
  method ToArray<T>(nodes: List<T>, count: nat, blank: T) returns (elements: seq<T>)
    requires count == |nodes.InOrder()|
    ensures elements == nodes.InOrder()
  {
    var a := new T[count](_ => blank);
    var i, ptr := count, nodes;
    while 0 < i
      invariant 0 <= i == |ptr.InOrder()| <= count
      invariant ptr.InOrder() + a[i..] == nodes.InOrder()
    {
      i := i - 1;
      a[i] := ptr.head;
      assert a[i..] == [ptr.head] + a[i + 1..];
      assert ptr.InOrder() + a[i + 1..] == ptr.next.InOrder() + a[i..];
      ptr := ptr.next;
    }
    assert ptr.InOrder() == [];
    elements := a[..];
    assert a[..] == a[0..];
  }

  /** CharBuffer: 1024 bytes for a number, zero behind it; what does not fit is dropped. */
  class CharBuffer {
    var length: nat
    const buffer: array<Byte>

    ghost predicate Valid()
      reads this, buffer
    {
      && length <= buffer.Length == NUMBER_BUFFER_SIZE
      && forall i :: length <= i < buffer.Length ==> buffer[i] == NUL
    }

    /** The buffer holds the token, or as much of it as fits. It ends with a terminator exactly if there is room for
        one more byte. */
    ghost predicate Holds(token: Text)
      reads this, buffer
    {
      Valid() && length == Min(|token|, NUMBER_BUFFER_SIZE) && buffer[..length] == token[..length]
    }

    constructor ()
      ensures Holds([]) && fresh(buffer)
    {
      length := 0;
      buffer := new Byte[NUMBER_BUFFER_SIZE](_ => 0);
    }

    /** pvt_add_char_to_buffer */
    method Add(c: Byte, ghost token: Text)
      requires Holds(token)
      modifies this, buffer
      ensures Holds(token + [c])
    {
      if NUMBER_BUFFER_SIZE - 1 < length {
        assert (token + [c])[..length] == token[..length];
        return;
      }
      buffer[length] := c;
      length := length + 1;
      assert (token + [c])[..length] == token[..length - 1] + [c];
    }
  }

  // ---------------------------------------------------------------------------------------------
  //  The parser
  // ---------------------------------------------------------------------------------------------

  /** The limits of a parser whose scratch arena has blocks of the given size and stands at an offset in one */
  function CodeLimits(depthMax: nat, blockSize: nat, offset: nat): Limits
    requires BufferStart(offset) < blockSize
  {
    Limits(depthMax, RoomOf(blockSize, offset), NUMBER_BUFFER_SIZE)
  }

  /** The errors of pvt_validate_utf8, after which pvt_parse_string returns without releasing the scratch arena */
  predicate LeavesScratch(error: Option<ErrorType>) {
    error.Some? &&
    (|| error.value.InvalidUtf8StartByte? || error.value.InvalidUtf8ContinuationByte?
     || error.value.OverlongSequence? || error.value.CodepointOutOfRange?
     || error.value.ReservedForHighSurrogate? || error.value.ReservedForLowSurrogate?)
  }

  class JsonContext {
    const input: Input
    const depthMax: nat
    /** The scratch arena of the thread, in which strings are built */
    const scratch: GrowingArena
    /** Where the scratch arena stands between two strings */
    ghost const home: Address
    ghost const limits: Limits
    var depthCurrent: nat
    /** err_type of the JsonParseError that the caller supplied; None is JSON_ERR_NONE. */
    var error: Option<ErrorType>

    constructor (input: Input, depthMax: nat, scratch: GrowingArena)
      requires input.Valid() && IsUnused(scratch, Place(scratch))
      ensures Ready() && depthCurrent == 0
      ensures this.input == input && this.depthMax == depthMax && this.scratch == scratch
      ensures home == Place(scratch)
    {
      this.input := input;
      this.depthMax := depthMax;
      this.scratch := scratch;
      home := Place(scratch);
      limits := CodeLimits(depthMax, scratch.defaultBlockSize, scratch.offset);
      depthCurrent := 0;
      error := None;
    }

    ghost predicate Valid()
      reads this, input, input.lookBehind, input.lookBehind.buffer
    {
      && input.Valid() && depthCurrent <= depthMax + 1
      && BufferStart(home.offset) < scratch.defaultBlockSize
      && limits == CodeLimits(depthMax, scratch.defaultBlockSize, home.offset)
    }

    ghost predicate Ready()
      reads this, input, input.lookBehind, input.lookBehind.buffer
    {
      Valid() && error == None && depthCurrent <= depthMax
    }

    ghost function Rest(): Text
      requires Valid()
      reads this, input, input.lookBehind, input.lookBehind.buffer
    {
      input.Rest()
    }

    /** The state after a step with the given outcome that was begun at the given depth. */
    ghost predicate Reached<T>(out: Outcome<T>, depth: nat)
      reads this, input, input.lookBehind, input.lookBehind.buffer
    {
      Valid() && depthCurrent == depth && Rest() == out.rest && error == out.ErrorCode()
    }

    /** The same for a step that may build strings: the scratch arena is back at its start, except after invalid
        UTF-8 in a string. Nothing is said when the source has left its memory. */
    ghost predicate Finished<T>(out: Outcome<T>, depth: nat)
      reads this, input, input.lookBehind, input.lookBehind.buffer, scratch
    {
      && Valid() && depthCurrent == depth && error == out.ErrorCode()
      && (error != Some(MemoryOverrun) ==>
            Rest() == out.rest && (IsUnused(scratch, home) <==> !LeavesScratch(error)))
    }

    /** pvt_record_error, without the message and the position */
    method RecordError(e: ErrorType)
      modifies this`error
      ensures error == Some(e)
    {
      error := Some(e);
    }

    /** pvt_skip_whitespace */
    method SkipWhitespace()
      requires Ready()
      modifies this, input, input.lookBehind, input.lookBehind.buffer
      ensures Ready() && depthCurrent == old(depthCurrent)
      ensures Rest() == Spec.SkipWs(old(Rest()))
    {
      var c := input.CurrentChar();
      while IsWhitespace(c)
        invariant Ready() && depthCurrent == old(depthCurrent)
        invariant c == Spec.Cur(Rest())
        invariant Spec.SkipWs(Rest()) == Spec.SkipWs(old(Rest()))
        decreases |Rest()|
      {
        input.Advance(1);
        c := input.CurrentChar();
      }
    }

    // ---------------------------------------------------------------------------------------------
    //  Strings
    // ---------------------------------------------------------------------------------------------

    /** pvt_parse_hex_impl: 0 after an error */
    method ParseHex(count: nat) returns (value: nat)
      requires Ready()
      modifies this, input, input.lookBehind, input.lookBehind.buffer
      ensures Reached(Spec.ParseHex(old(Rest()), count, 0), old(depthCurrent))
      ensures error == None ==> Some(value) == Spec.ParseHex(old(Rest()), count, 0).Result()
      ensures !LeavesScratch(error)
    {
      hide Input.Valid;
      ghost var out := Spec.ParseHex(Rest(), count, 0);
      value := 0;
      var i := 0;
      while i < count
        invariant i <= count && Ready() && depthCurrent == old(depthCurrent)
        invariant Spec.ParseHex(Rest(), count - i, value) == out
      {
        var c := input.CurrentChar();
        if c == NUL {
          RecordError(UnexpectedEof);
          return 0;
        }
        if !IsHex(c) {
          RecordError(InvalidUnicodeEscape);
          return 0;
        }
        value := value * 16 + HexDigit(c);
        input.Advance(1);
        i := i + 1;
      }
    }

    /** sb_append_char. The source goes on when it has left the block; the model stops there. */
    method AppendChar(c: Byte, sb: GrowingBuilder)
      requires Valid() && IsInUse(scratch, sb, home) && error == None
      modifies this`error, sb, scratch
      ensures Appended(old(sb.Contents()), if c == NUL then [] else [c], sb)
    {
      var ok := JsonScratch.AppendChar(scratch, sb, c, home);
      if !ok {
        RecordError(MemoryOverrun);
      }
    }

    /** The state after bytes were added to what the builder held before. */
    ghost predicate Appended(before: Text, bytes: Text, sb: GrowingBuilder)
      reads this, sb, scratch
    {
      if |before| + |bytes| <= limits.room then
        error == None && IsInUse(scratch, sb, home) && sb.Contents() == before + bytes
      else
        error == Some(MemoryOverrun)
    }

    lemma LimitsAreCode()
      requires Valid()
      ensures limits.room == RoomOf(scratch.defaultBlockSize, home.offset)
    {
    }

    /** Appends one byte after another. */
    method Append(sb: GrowingBuilder, bytes: Text)
      requires Valid() && IsInUse(scratch, sb, home) && error == None && NulFree(bytes)
      modifies this`error, sb, scratch
      ensures Appended(old(sb.Contents()), bytes, sb)
    {
      hide IsInUse, CodeLimits;
      ghost var before := sb.Contents();
      InUseHasRoom(scratch, sb, home);
      LimitsAreCode();
      var i := 0;
      assert before + bytes[..0] == before;
      while i < |bytes|
        invariant i <= |bytes| && IsInUse(scratch, sb, home) && error == None
        invariant sb.Contents() == before + bytes[..i]
        invariant |before| + i <= limits.room
      {
        AppendChar(bytes[i], sb);
        if error != None {
          return;
        }
        assert bytes[..i + 1] == bytes[..i] + [bytes[i]];
        i := i + 1;
      }
      assert bytes[..i] == bytes;
    }

    /** pvt_encode_utf8 */
    method EncodeUtf8(cp: nat, sb: GrowingBuilder)
      requires Valid() && IsInUse(scratch, sb, home) && error == None
      modifies this`error, sb, scratch
      ensures Utf8.IsScalar(cp) ==> Appended(old(sb.Contents()), Spec.Kept(cp), sb)
      ensures !Utf8.IsScalar(cp) ==>
                && IsInUse(scratch, sb, home) && sb.Contents() == old(sb.Contents())
                && error == Some(if IsHigh(cp) then ReservedForHighSurrogate
                                 else if IsLow(cp) then ReservedForLowSurrogate
                                 else CodepointOutOfRange)
    {
      if 0xD800 <= cp <= 0xDFFF {
        RecordError(if cp < 0xDC00 then ReservedForHighSurrogate else ReservedForLowSurrogate);
      } else if cp <= 0x7F {
        AppendChar(cp, sb);
      } else if cp <= 0x7FF {
        Append(sb, [0xC0 + cp / 0x40, Utf8.Sextet(cp, 1)]);
      } else if cp <= 0xFFFF {
        Append(sb, [0xE0 + cp / 0x1000, Utf8.Sextet(cp, 0x40), Utf8.Sextet(cp, 1)]);
      } else if cp <= 0x10FFFF {
        Append(sb, [0xF0 + cp / 0x40000, Utf8.Sextet(cp, 0x1000), Utf8.Sextet(cp, 0x40), Utf8.Sextet(cp, 1)]);
      } else {
        RecordError(CodepointOutOfRange);
      }
    }

    /** The part of pvt_parse_unicode_escape that reads the code point; it stands at the 'u'. */
    method ReadCodePoint() returns (cp: nat)
      requires Ready() && Spec.Cur(Rest()) == LOWER_U
      modifies this, input, input.lookBehind, input.lookBehind.buffer
      ensures Reached(Spec.ParseUnicodeEscape(old(Rest())), old(depthCurrent))
      ensures error == None ==>
                Utf8.IsScalar(cp) && Some(Spec.Kept(cp)) == Spec.ParseUnicodeEscape(old(Rest())).Result()
      ensures !LeavesScratch(error)
    {
      input.Advance(1);
      cp := ParseHex(4);
      if error != None {
        return;
      }
      cp := Spec.Uint16(cp);
      if 0xDC00 <= cp <= 0xDFFF {
        RecordError(NoPrecedingHighSurrogate);
        return;
      }
      if 0xD800 <= cp <= 0xDBFF {
        cp := ReadLowSurrogate(cp);
      }
    }

    /** The part of pvt_parse_unicode_escape that follows a high surrogate */
    method ReadLowSurrogate(high: nat) returns (cp: nat)
      requires Ready() && IsHigh(high)
      modifies this, input, input.lookBehind, input.lookBehind.buffer
      ensures Reached(Spec.ParseLowSurrogate(high, old(Rest())), old(depthCurrent))
      ensures error == None ==>
                Utf8.IsScalar(cp) && Some(Spec.Kept(cp)) == Spec.ParseLowSurrogate(high, old(Rest())).Result()
      ensures !LeavesScratch(error)
    {
      cp := 0;
      var c := input.CurrentChar();
      var d := input.PeekNextChar();
      if c != BACKSLASH || d != LOWER_U {
        RecordError(NoFollowingLowSurrogate);
        return;
      }
      input.Advance(2);
      cp := ParseHex(4);
      if error != None {
        return;
      }
      cp := Spec.Uint16(cp);
      if !(0xDC00 <= cp <= 0xDFFF) {
        RecordError(NoFollowingLowSurrogate);
        return;
      }
      cp := Combine(high, cp);
    }

    /** After a step that adds bytes to a builder. */
    ghost predicate Added(out: Outcome<Text>, depth: nat, sb: GrowingBuilder, before: Text)
      reads this, input, input.lookBehind, input.lookBehind.buffer, sb, scratch
    {
      if out.Ok? && limits.room < |before| + |out.value| then
        Valid() && depthCurrent == depth && error == Some(MemoryOverrun)
      else
        Reached(out, depth) && IsInUse(scratch, sb, home) && (out.Ok? ==> sb.Contents() == before + out.value)
    }

    /** pvt_parse_unicode_escape */
    method ParseUnicodeEscape(sb: GrowingBuilder)
      requires Ready() && IsInUse(scratch, sb, home) && Spec.Cur(Rest()) == LOWER_U
      modifies this, input, input.lookBehind, input.lookBehind.buffer, sb, scratch
      ensures Added(Spec.ParseUnicodeEscape(old(Rest())), old(depthCurrent), sb, old(sb.Contents()))
      ensures !LeavesScratch(error)
    {
      hide Spec.ParseUnicodeEscape, IsInUse, CodeLimits;
      var cp := ReadCodePoint();
      if error == None {
        EncodeUtf8(cp, sb);
      }
    }

    /** pvt_parse_backlash_escapes, which stands at the backslash */
    method ParseEscape(sb: GrowingBuilder)
      requires Ready() && IsInUse(scratch, sb, home) && Spec.Cur(Rest()) == BACKSLASH
      modifies this, input, input.lookBehind, input.lookBehind.buffer, sb, scratch
      ensures Added(Spec.ParseEscape(old(Rest())), old(depthCurrent), sb, old(sb.Contents()))
      ensures !LeavesScratch(error)
    {
      hide Spec.ParseUnicodeEscape, Spec.ShortEscapeValue, Input.Valid, IsInUse, CodeLimits;
      input.Advance(1);
      var c := input.CurrentChar();
      if c == NUL {
        RecordError(UnexpectedEof);
      } else if Spec.IsShortEscape(c) {
        Append(sb, [Spec.ShortEscapeValue(c)]);
        if error == None {
          input.Advance(1);
        }
      } else if c == LOWER_U {
        ParseUnicodeEscape(sb);
      } else {
        RecordError(InvalidEscapeSequence);
      }
    }

    /** pvt_validate_utf8_continuation_byte, and the byte is consumed when it is valid */
    method ContinuationByte(lo: Byte, hi: Byte) returns (b: Byte)
      requires Ready() && 0 < lo
      modifies this, input, input.lookBehind, input.lookBehind.buffer
      ensures Valid() && depthCurrent == old(depthCurrent) && b == Spec.Cur(old(Rest()))
      ensures if lo <= b <= hi then old(Rest()) != [] && Rest() == old(Rest())[1..] && error == None
              else Rest() == old(Rest()) && error == Some(InvalidUtf8ContinuationByte)
    {
      b := input.CurrentChar();
      if !(lo <= b <= hi) {
        RecordError(InvalidUtf8ContinuationByte);
        return;
      }
      input.Advance(1);
    }

    /** The special cases of pvt_validate_utf8 for the byte after 0xE0, 0xED, 0xF0 and 0xF4 */
    method SecondByte(lead: Byte) returns (b: Byte)
      requires Ready() && 0 < Spec.TailsAfter(lead)
      modifies this, input, input.lookBehind, input.lookBehind.buffer
      ensures Valid() && depthCurrent == old(depthCurrent) && b == Spec.Cur(old(Rest()))
      ensures if Spec.SecondByteOk(lead, b) then old(Rest()) != [] && Rest() == old(Rest())[1..] && error == None
              else Rest() == old(Rest()) && error == Some(Spec.SecondByteError(lead, b))
      ensures error == None ==> b != NUL
      ensures error != None ==> LeavesScratch(error)
    {
      b := input.CurrentChar();
      if lead == 0xE0 {
        if 0x80 <= b <= 0x9F {
          RecordError(OverlongSequence);
          return;
        }
        b := ContinuationByte(0xA0, 0xBF);
      } else if lead == 0xED {
        if 0xA0 <= b <= 0xAF {
          RecordError(ReservedForHighSurrogate);
          return;
        }
        if 0xB0 <= b <= 0xBF {
          RecordError(ReservedForLowSurrogate);
          return;
        }
        b := ContinuationByte(0x80, 0x9F);
      } else if lead == 0xF0 {
        if 0x80 <= b <= 0x8F {
          RecordError(OverlongSequence);
          return;
        }
        b := ContinuationByte(0x90, 0xBF);
      } else if lead == 0xF4 {
        if 0x90 <= b {
          RecordError(CodepointOutOfRange);
          return;
        }
        b := ContinuationByte(0x80, 0x8F);
      } else {
        b := ContinuationByte(0x80, 0xBF);
      }
    }

    /** The continuation bytes from the third byte on */
    method Tails(n: nat) returns (tails: Text)
      requires Ready()
      modifies this, input, input.lookBehind, input.lookBehind.buffer
      ensures Reached(Spec.ParseTails(old(Rest()), n), old(depthCurrent))
      ensures error == None ==> Some(tails) == Spec.ParseTails(old(Rest()), n).Result()
      ensures NulFree(tails)
      ensures error != None ==> LeavesScratch(error)
      decreases n
    {
      hide Input.Valid, CodeLimits;
      tails := [];
      if n == 0 {
        return;
      }
      var b := ContinuationByte(0x80, 0xBF);
      if error == None {
        tails := Tails(n - 1);
        tails := [b] + tails;
      }
    }

    /** The part of pvt_validate_utf8 that fills stream_bytes */
    method ReadUtf8() returns (streamBytes: Text)
      requires Ready() && Spec.Cur(Rest()) != NUL
      modifies this, input, input.lookBehind, input.lookBehind.buffer
      ensures Reached(Spec.ParseUtf8Char(old(Rest())), old(depthCurrent))
      ensures error == None ==>
                NulFree(streamBytes) && Some(streamBytes) == Spec.ParseUtf8Char(old(Rest())).Result()
      ensures error != None ==> LeavesScratch(error)
    {
      hide Spec.ParseTails, Spec.SecondByteOk, Spec.SecondByteError;
      streamBytes := [];
      var lead := input.CurrentChar();
      if lead <= 127 {
        input.Advance(1);
        return [lead];
      }
      var tails := Spec.TailsAfter(lead);
      if tails == 0 {
        RecordError(if lead == 0xC0 || lead == 0xC1 then OverlongSequence else InvalidUtf8StartByte);
        return;
      }
      input.Advance(1);
      var second := SecondByte(lead);
      if error != None {
        return;
      }
      var others := Tails(tails - 1);
      streamBytes := [lead, second] + others;
    }

    /** pvt_validate_utf8 */
    method ValidateUtf8(sb: GrowingBuilder)
      requires Ready() && IsInUse(scratch, sb, home) && Spec.Cur(Rest()) != NUL
      modifies this, input, input.lookBehind, input.lookBehind.buffer, sb, scratch
      ensures Added(Spec.ParseUtf8Char(old(Rest())), old(depthCurrent), sb, old(sb.Contents()))
      ensures error != None && error != Some(MemoryOverrun) ==> LeavesScratch(error)
    {
      hide Spec.ParseUtf8Char, IsInUse;
      var streamBytes := ReadUtf8();
      if error == None {
        Append(sb, streamBytes);
      }
    }

    /** One turn of the loop of pvt_parse_string; false when the scratch arena is to be left as it is. */
    method ParseChar(sb: GrowingBuilder) returns (release: bool)
      requires Ready() && IsInUse(scratch, sb, home) && Spec.Cur(Rest()) != NUL
      modifies this, input, input.lookBehind, input.lookBehind.buffer, sb, scratch
      ensures Added(Spec.ParseChar(old(Rest())), old(depthCurrent), sb, old(sb.Contents()))
      ensures error != None && error != Some(MemoryOverrun) ==> (release <==> !LeavesScratch(error))
    {
      hide Spec.ParseUtf8Char, Spec.ParseEscape, IsInUse;
      var c := input.CurrentChar();
      release := true;
      if c == BACKSLASH {
        ParseEscape(sb);
      } else if c <= 0x1F {
        RecordError(UnescapedControlChar);
      } else {
        ValidateUtf8(sb);
        release := false;
      }
    }

    /** pvt_parse_string, which stands at the opening quote. The scratch arena is released on every way out but the
        one after invalid UTF-8. */
    method ParseString() returns (text: Option<Text>)
      requires Ready() && IsUnused(scratch, home) && Spec.Cur(Rest()) == QUOTE
      modifies this, input, input.lookBehind, input.lookBehind.buffer, scratch
      ensures Finished(Spec.ParseString(old(Rest()), limits.room), old(depthCurrent))
      ensures text == Spec.ParseString(old(Rest()), limits.room).Result()
    {
      hide Spec.ParseChars, Input.Valid, IsInUse, IsUnused;
      var marker, sb := GetScratch(scratch, home);
      input.Advance(1);
      text := ParseChars(marker, sb);
    }

    /** The loop of pvt_parse_string and what follows it */
    method ParseChars(marker: Address, sb: GrowingBuilder) returns (text: Option<Text>)
      requires Ready() && IsInUse(scratch, sb, home) && marker == MarkerOf(home)
      modifies this, input, input.lookBehind, input.lookBehind.buffer, sb, scratch
      ensures Finished(Spec.ParseChars(old(Rest()), old(sb.Contents()), limits.room), old(depthCurrent))
      ensures text == Spec.ParseChars(old(Rest()), old(sb.Contents()), limits.room).Result()
    {
      hide Spec.ParseChar, Spec.ParseChars, Input.Valid, IsInUse, IsUnused, CodeLimits, GrowingBuilder.Contents;
      text := None;
      ghost var out := Spec.ParseChars(Rest(), sb.Contents(), limits.room);
      var c := input.CurrentChar();
      while c != NUL && c != QUOTE
        invariant Ready() && depthCurrent == old(depthCurrent)
        invariant IsInUse(scratch, sb, home)
        invariant c == Spec.Cur(Rest())
        invariant Spec.ParseChars(Rest(), sb.Contents(), limits.room) == out
        decreases |Rest()|
      {
        CharsStep(Rest(), sb.Contents(), limits.room);
        var release := ParseChar(sb);
        if error != None {
          if error != Some(MemoryOverrun) {
            LeaveScratch(marker, sb, release);
          }
          return;
        }
        c := input.CurrentChar();
      }
      CharsEnd(Rest(), sb.Contents(), limits.room);
      if c == NUL {
        RecordError(UnterminatedString);
        ReleaseScratch(scratch, marker, sb, home);
        return;
      }
      var bytes := sb.Read();
      text := Some(bytes);
      input.Advance(1);
      ReleaseScratch(scratch, marker, sb, home);
    }

    /** The scratch arena is released, or left with what the string has taken of it. */
    method LeaveScratch(marker: Address, ghost sb: GrowingBuilder, release: bool)
      requires IsInUse(scratch, sb, home) && marker == MarkerOf(home)
      modifies scratch
      ensures IsUnused(scratch, home) <==> release
    {
      if release {
        ReleaseScratch(scratch, marker, sb, home);
      } else {
        InUseIsNotUnused(scratch, sb, home);
      }
    }

    // ---------------------------------------------------------------------------------------------
    //  Numbers and literals
    // ---------------------------------------------------------------------------------------------

    /** The buffer holds the bytes from start up to the cursor, as far as they fit. */
    ghost predicate Scanned(cb: CharBuffer, start: nat)
      reads input, cb, cb.buffer
    {
      && start <= input.index <= |input.text|
      && cb.buffer != input.lookBehind.buffer
      && cb.Holds(input.text[start..input.index])
    }

    /** A token that leaves room for its terminator is read back whole. */
    lemma ShortTokenIsHeld(cb: CharBuffer, start: nat)
      requires Scanned(cb, start)
      ensures var token := Spec.Consumed(input.text[start..], input.text[input.index..]);
              && token == input.text[start..input.index]
              && (cb.length == NUMBER_BUFFER_SIZE <==> NUMBER_BUFFER_SIZE <= |token|)
              && (cb.length < NUMBER_BUFFER_SIZE ==> cb.buffer[..cb.length] == token)
    {
      var token := input.text[start..input.index];
      assert Spec.Consumed(input.text[start..], input.text[input.index..]) == token;
      assert token[..|token|] == token;
    }

    /** Puts the current byte into the buffer and advances. */
    method Take(cb: CharBuffer, ghost start: nat)
      requires Ready() && Scanned(cb, start) && Rest() != []
      modifies this, input, input.lookBehind, input.lookBehind.buffer, cb, cb.buffer
      ensures Ready() && Scanned(cb, start) && depthCurrent == old(depthCurrent)
      ensures Rest() == old(Rest())[1..]
    {
      var c := input.CurrentChar();
      ghost var token := input.text[start..input.index];
      cb.Add(c, token);
      assert token + [c] == input.text[start..input.index + 1];
      input.Advance(1);
    }

    method TakeDigits(cb: CharBuffer, ghost start: nat)
      requires Ready() && Scanned(cb, start)
      modifies this, input, input.lookBehind, input.lookBehind.buffer, cb, cb.buffer
      ensures Ready() && Scanned(cb, start) && depthCurrent == old(depthCurrent)
      ensures Rest() == Spec.SkipDigits(old(Rest()))
    {
      var c := input.CurrentChar();
      while IsDigit(c)
        invariant Ready() && Scanned(cb, start) && depthCurrent == old(depthCurrent)
        invariant c == Spec.Cur(Rest())
        invariant Spec.SkipDigits(Rest()) == Spec.SkipDigits(old(Rest()))
        decreases |Rest()|
      {
        Take(cb, start);
        c := input.CurrentChar();
      }
    }

    /** An optional sign */
    method TakeSign(cb: CharBuffer, ghost start: nat, plusAllowed: bool)
      requires Ready() && Scanned(cb, start)
      modifies this, input, input.lookBehind, input.lookBehind.buffer, cb, cb.buffer
      ensures Ready() && Scanned(cb, start) && depthCurrent == old(depthCurrent)
      ensures var c := Spec.Cur(old(Rest()));
              Rest() == if c == MINUS || (plusAllowed && c == PLUS) then old(Rest())[1..] else old(Rest())
    {
      var c := input.CurrentChar();
      if c == MINUS || (plusAllowed && c == PLUS) {
        Take(cb, start);
      }
    }

    /** The first parts of pvt_parse_number; true when the integer is a single 0. */
    method ScanIntegerPart(cb: CharBuffer) returns (zero: bool)
      requires Ready() && Scanned(cb, input.index)
      modifies this, input, input.lookBehind, input.lookBehind.buffer, cb, cb.buffer
      ensures Reached(Spec.ParseIntegerPart(old(Rest())), old(depthCurrent))
      ensures Scanned(cb, old(input.index))
      ensures zero ==> input.text[old(input.index)..input.index] in {[ZERO], [MINUS, ZERO]}
      ensures !LeavesScratch(error)
    {
      ghost var start := input.index;
      zero := false;
      ghost var minus := Spec.Cur(Rest()) == MINUS;
      TakeSign(cb, start, false);
      var c := input.CurrentChar();
      if !IsDigit(c) {
        RecordError(InvalidNumberFormat);
        return;
      }
      if c == ZERO {
        Take(cb, start);
        c := input.CurrentChar();
        if IsDigit(c) {
          RecordError(InvalidNumberFormat);
          return;
        }
        zero := true;
        assert input.text[start..input.index] == if minus then [MINUS, ZERO] else [ZERO];
      } else {
        TakeDigits(cb, start);
      }
    }

    method ScanFraction(cb: CharBuffer, ghost start: nat)
      requires Ready() && Scanned(cb, start)
      modifies this, input, input.lookBehind, input.lookBehind.buffer, cb, cb.buffer
      ensures Reached(Spec.ParseFraction(old(Rest())), old(depthCurrent)) && Scanned(cb, start)
      ensures !LeavesScratch(error)
    {
      var c := input.CurrentChar();
      if c == POINT {
        Take(cb, start);
        c := input.CurrentChar();
        if !IsDigit(c) {
          RecordError(InvalidNumberFormat);
          return;
        }
        Take(cb, start);
        TakeDigits(cb, start);
      }
    }

    method ScanExponent(cb: CharBuffer, ghost start: nat)
      requires Ready() && Scanned(cb, start)
      modifies this, input, input.lookBehind, input.lookBehind.buffer, cb, cb.buffer
      ensures Reached(Spec.ParseExponent(old(Rest())), old(depthCurrent)) && Scanned(cb, start)
      ensures !LeavesScratch(error)
    {
      var c := input.CurrentChar();
      if c == LOWER_E || c == UPPER_E {
        Take(cb, start);
        TakeSign(cb, start, true);
        c := input.CurrentChar();
        if !IsDigit(c) {
          RecordError(InvalidNumberFormat);
          return;
        }
        Take(cb, start);
        TakeDigits(cb, start);
      }
    }

    /** pvt_parse_number */
    method ParseNumber() returns (value: Option<JsonValue>)
      requires Ready()
      modifies this, input, input.lookBehind, input.lookBehind.buffer
      ensures Reached(Spec.ParseNumber(old(Rest()), limits.buffer), old(depthCurrent))
      ensures value == Spec.ParseNumber(old(Rest()), limits.buffer).Result()
      ensures !LeavesScratch(error)
    {
      hide Spec.ParseIntegerPart, Spec.ParseDouble, Spec.Consumed, Spec.IntegerValue, Spec.IsIntegerLexeme, Input.Valid;
      hide CodeLimits;
      value := None;
      ghost var start := input.index;
      var cb := new CharBuffer();
      var c := input.CurrentChar();
      if c == POINT {
        RecordError(InvalidNumberFormat);
        return;
      }
      assert input.text[start..start] == [];
      var zero := ScanIntegerPart(cb);
      if error != None {
        return;
      }
      c := input.CurrentChar();
      if c == POINT || c == LOWER_E || c == UPPER_E {
        value := ParseDouble(cb, start);
      } else {
        value := ConvertInteger(cb, start, zero);
      }
    }

    /** The part of pvt_parse_number after the integer part of a double */
    method ParseDouble(cb: CharBuffer, ghost start: nat) returns (value: Option<JsonValue>)
      requires Ready() && Scanned(cb, start)
      modifies this, input, input.lookBehind, input.lookBehind.buffer, cb, cb.buffer
      ensures var out := Spec.ParseDouble(input.text[start..], old(Rest()), limits.buffer);
              Reached(out, old(depthCurrent)) && value == out.Result()
      ensures !LeavesScratch(error)
    {
      hide Spec.ParseFraction, Spec.ParseExponent, Spec.Consumed, Input.Valid;
      value := None;
      ScanFraction(cb, start);
      if error != None {
        return;
      }
      ScanExponent(cb, start);
      if error != None {
        return;
      }
      var token := ReadToken(cb, start);
      if token.Some? {
        value := Some(Double(token.value));
      }
    }

    /** The conversion of an integer, of which a single 0 needs none */
    method ConvertInteger(cb: CharBuffer, ghost start: nat, zero: bool) returns (value: Option<JsonValue>)
      requires Ready() && Scanned(cb, start)
      requires Spec.IsIntegerLexeme(Spec.Consumed(input.text[start..], Rest()))
      requires zero ==> input.text[start..input.index] in {[ZERO], [MINUS, ZERO]}
      modifies this`error
      ensures var token := Spec.Consumed(input.text[start..], Rest());
              if limits.buffer <= |token| then error == Some(MemoryOverrun) && value == None
              else error == None && value == Some(Spec.IntegerValue(token))
    {
      hide Spec.IntegerValue, Spec.IsIntegerLexeme;
      if zero {
        ZeroLexeme();
        ShortTokenIsHeld(cb, start);
        return Some(Long(0));
      }
      value := None;
      var token := ReadToken(cb, start);
      if token.Some? {
        value := Some(Spec.IntegerValue(token.value));
      }
    }

    /** What strtol and strtod find in the buffer. They are foreign: IntegerValue says what they make of an integer.
        They need a terminator, and a buffer that is full has none: where the source reads on, the model stops. */
    method ReadToken(cb: CharBuffer, ghost start: nat) returns (token: Option<Text>)
      requires Ready() && Scanned(cb, start)
      modifies this`error
      ensures var consumed := Spec.Consumed(input.text[start..], Rest());
              if limits.buffer <= |consumed| then error == Some(MemoryOverrun) && token == None
              else error == None && token == Some(consumed)
    {
      ShortTokenIsHeld(cb, start);
      if cb.length == NUMBER_BUFFER_SIZE {
        RecordError(MemoryOverrun);
        return None;
      }
      return Some(cb.buffer[..cb.length]);
    }

    /** pvt_parse_literal_impl */
    method ParseLiteral(literal: JsonValue, keyword: Text) returns (value: Option<JsonValue>)
      requires Ready()
      modifies this, input, input.lookBehind, input.lookBehind.buffer
      ensures Reached(Spec.ParseLiteral(old(Rest()), keyword, literal), old(depthCurrent))
      ensures value == Spec.ParseLiteral(old(Rest()), keyword, literal).Result()
      ensures !LeavesScratch(error)
    {
      hide Input.Valid, CodeLimits, Spec.ParseLiteral;
      ghost var out := Spec.ParseLiteral(Rest(), keyword, literal);
      var i := 0;
      var c := input.CurrentChar();
      while i < |keyword| && c != NUL
        invariant i <= |keyword| && Ready() && depthCurrent == old(depthCurrent)
        invariant c == Spec.Cur(Rest())
        invariant Spec.ParseLiteral(Rest(), keyword[i..], literal) == out
      {
        LiteralStep(Rest(), keyword, i, literal);
        if keyword[i] != c {
          RecordError(UnexpectedText);
          return None;
        }
        input.Advance(1);
        c := input.CurrentChar();
        i := i + 1;
      }
      LiteralEnd(Rest(), keyword, i, literal);
      if i < |keyword| {
        RecordError(UnexpectedEof);
        return None;
      }
      return Some(literal);
    }

    // ---------------------------------------------------------------------------------------------
    //  Values, arrays and objects
    // ---------------------------------------------------------------------------------------------

    lemma DepthLimit()
      requires Valid()
      ensures limits.depth == depthMax
    {
    }

    /** pvt_max_depth_exceeded */
    method MaxDepthExceeded() returns (exceeded: bool)
      modifies this`error
      ensures exceeded <==> depthMax < depthCurrent
      ensures error == if exceeded then Some(MaxNestedDepthExceeded) else old(error)
    {
      exceeded := depthMax < depthCurrent;
      if exceeded {
        RecordError(MaxNestedDepthExceeded);
      }
    }

    /** pvt_parse_value */
    method ParseValue() returns (value: Option<JsonValue>)
      requires Ready() && IsUnused(scratch, home)
      modifies this, input, input.lookBehind, input.lookBehind.buffer, scratch
      ensures Finished(Spec.ParseValue(old(Rest()), old(depthCurrent), limits), old(depthCurrent))
      ensures value == Spec.ParseValue(old(Rest()), old(depthCurrent), limits).Result()
      decreases |Rest()|, 3
    {
      hide Spec.ParseArray, Spec.ParseObject, Spec.ParseString, Spec.ParseNumber, Spec.ParseLiteral;
      hide CodeLimits, IsUnused, Input.Valid;
      SkipWhitespace();
      var c := input.CurrentChar();
      if c == LEFT_BRACE {
        value := ParseObject();
      } else if c == LEFT_BRACKET {
        value := ParseArray();
      } else if c == QUOTE {
        var text := ParseString();
        value := if text.Some? then Some(String(text.value)) else None;
      } else if Spec.StartsNumber(c) {
        value := ParseNumber();
      } else if c == LOWER_T {
        value := ParseLiteral(Boolean(true), KEYWORD_TRUE);
      } else if c == LOWER_F {
        value := ParseLiteral(Boolean(false), KEYWORD_FALSE);
      } else if c == LOWER_N {
        value := ParseLiteral(Null, KEYWORD_NULL);
      } else {
        RecordError(UnexpectedText);
        value := None;
      }
    }

    /** pvt_parse_array, which stands at the '['; whichever way it returns, the depth is back where it was. */
    method ParseArray() returns (value: Option<JsonValue>)
      requires Ready() && IsUnused(scratch, home) && Spec.Cur(Rest()) == LEFT_BRACKET
      modifies this, input, input.lookBehind, input.lookBehind.buffer, scratch
      ensures Finished(Spec.ParseArray(old(Rest()), old(depthCurrent), limits), old(depthCurrent))
      ensures value == Spec.ParseArray(old(Rest()), old(depthCurrent), limits).Result()
      decreases |Rest()|, 2
    {
      hide Spec.ParseArrayBody, CodeLimits, IsUnused, Input.Valid;
      DepthLimit();
      depthCurrent := depthCurrent + 1;
      var exceeded := MaxDepthExceeded();
      if exceeded {
        depthCurrent := depthCurrent - 1;
        return None;
      }
      input.Advance(1);
      SkipWhitespace();
      value := ParseArrayBody();
      depthCurrent := depthCurrent - 1;
    }

    /** The part of pvt_parse_array between the '[' and the loop */
    method ParseArrayBody() returns (value: Option<JsonValue>)
      requires Ready() && IsUnused(scratch, home)
      modifies this, input, input.lookBehind, input.lookBehind.buffer, scratch
      ensures Finished(Spec.ParseArrayBody(old(Rest()), old(depthCurrent), limits), old(depthCurrent))
      ensures value == Spec.ParseArrayBody(old(Rest()), old(depthCurrent), limits).Result()
      decreases |Rest()|, 5
    {
      hide Spec.ParseElements, Spec.ParseElement, CodeLimits, IsUnused, Input.Valid;
      var c := input.CurrentChar();
      if c == NUL || c == RIGHT_BRACKET {
        value := ParseElements(Nil, 0);
        return;
      }
      var first := ParseElement();
      if first == None {
        return None;
      }
      SkipWhitespace();
      assert Node(first.value, Nil).InOrder() == [first.value];
      value := ParseElements(Node(first.value, Nil), 1);
    }

    /** pvt_parse_value as pvt_parse_array calls it, with its own error for unexpected text */
    method ParseElement() returns (value: Option<JsonValue>)
      requires Ready() && IsUnused(scratch, home)
      modifies this, input, input.lookBehind, input.lookBehind.buffer, scratch
      ensures Finished(Spec.ParseElement(old(Rest()), old(depthCurrent), limits), old(depthCurrent))
      ensures value == Spec.ParseElement(old(Rest()), old(depthCurrent), limits).Result()
      decreases |Rest()|, 4
    {
      hide Spec.ParseValue;
      value := ParseValue();
      if value == None && error == Some(UnexpectedText) {
        error := Some(MissingArrayElement);
      }
    }

    /** The comma of the loops of pvt_parse_array and pvt_parse_object, which must not be followed by the end */
    method ParseComma(close: Byte) returns (ok: bool)
      requires Ready()
      modifies this, input, input.lookBehind, input.lookBehind.buffer
      ensures Reached(Spec.ParseComma(old(Rest()), close), old(depthCurrent))
      ensures ok <==> error == None
      ensures !LeavesScratch(error)
    {
      SkipWhitespace();
      var c := input.CurrentChar();
      if c != COMMA {
        RecordError(MissingComma);
        return false;
      }
      input.Advance(1);
      SkipWhitespace();
      c := input.CurrentChar();
      if c == close {
        RecordError(TrailingCommaNotAllowed);
        return false;
      }
      return true;
    }

    /** One turn of the loop of pvt_parse_array */
    method ParseNextElement() returns (next: Option<JsonValue>)
      requires Ready() && IsUnused(scratch, home)
      modifies this, input, input.lookBehind, input.lookBehind.buffer, scratch
      ensures Finished(Spec.ParseNextElement(old(Rest()), old(depthCurrent), limits), old(depthCurrent))
      ensures next == Spec.ParseNextElement(old(Rest()), old(depthCurrent), limits).Result()
      decreases |Rest()|, 0
    {
      hide Spec.ParseComma, Spec.ParseElement, CodeLimits, IsUnused, Input.Valid;
      var ok := ParseComma(RIGHT_BRACKET);
      if !ok {
        return None;
      }
      next := ParseElement();
      if next.Some? {
        SkipWhitespace();
      }
    }

    /** The loop of pvt_parse_array and what follows it */
    method ParseElements(first: List<JsonValue>, numFirst: nat) returns (value: Option<JsonValue>)
      requires Ready() && IsUnused(scratch, home) && numFirst == |first.InOrder()|
      modifies this, input, input.lookBehind, input.lookBehind.buffer, scratch
      ensures Finished(Spec.ParseElements(old(Rest()), old(depthCurrent), limits, first.InOrder()), old(depthCurrent))
      ensures value == Spec.ParseElements(old(Rest()), old(depthCurrent), limits, first.InOrder()).Result()
      decreases |Rest()|, 1
    {
      hide Spec.ParseNextElement, Spec.ParseElements, CodeLimits, IsUnused, Input.Valid;
      value := None;
      ghost var out := Spec.ParseElements(Rest(), depthCurrent, limits, first.InOrder());
      var elements, count := first, numFirst;
      var c := input.CurrentChar();
      while c != NUL && c != RIGHT_BRACKET
        invariant Ready() && IsUnused(scratch, home) && depthCurrent == old(depthCurrent) && |Rest()| <= old(|Rest()|)
        invariant c == Spec.Cur(Rest())
        invariant count == |elements.InOrder()|
        invariant Spec.ParseElements(Rest(), depthCurrent, limits, elements.InOrder()) == out
        decreases |Rest()|
      {
        ElementsStep(Rest(), depthCurrent, limits, elements.InOrder());
        var next := ParseNextElement();
        if next == None {
          return;
        }
        elements, count := Node(next.value, elements), count + 1;
        c := input.CurrentChar();
      }
      ElementsEnd(Rest(), depthCurrent, limits, elements.InOrder());
      if c != RIGHT_BRACKET {
        RecordError(UnterminatedArray);
        return;
      }
      input.Advance(1);
      SkipWhitespace();
      var items := ToArray(elements, count, Null);
      value := Some(Array(items));
    }

    /** The part of pvt_parse_one_entry between the key and the value */
    method ParseColon()
      requires Ready()
      modifies this, input, input.lookBehind, input.lookBehind.buffer
      ensures Reached(Spec.ParseColon(old(Rest())), old(depthCurrent))
      ensures !LeavesScratch(error)
    {
      SkipWhitespace();
      var c := input.CurrentChar();
      if c != COLON {
        RecordError(MissingColon);
        return;
      }
      input.Advance(1);
      SkipWhitespace();
      c := input.CurrentChar();
      if c == NUL {
        RecordError(MissingObjectValue);
      }
    }

    /** The part of pvt_parse_one_entry before the value */
    method ParseKey() returns (key: Option<Text>)
      requires Ready() && IsUnused(scratch, home)
      modifies this, input, input.lookBehind, input.lookBehind.buffer, scratch
      ensures Finished(Spec.ParseKey(old(Rest()), limits.room), old(depthCurrent))
      ensures key == Spec.ParseKey(old(Rest()), limits.room).Result()
    {
      hide Spec.ParseString, Spec.ParseColon;
      SkipWhitespace();
      var c := input.CurrentChar();
      if c != QUOTE {
        RecordError(MissingObjectKey);
        return None;
      }
      key := ParseString();
      if key == None {
        return;
      }
      ParseColon();
      if error != None {
        return None;
      }
    }

    /** pvt_parse_one_entry */
    method ParseEntry() returns (entry: Option<Entry>)
      requires Ready() && IsUnused(scratch, home)
      modifies this, input, input.lookBehind, input.lookBehind.buffer, scratch
      ensures Finished(Spec.ParseEntry(old(Rest()), old(depthCurrent), limits), old(depthCurrent))
      ensures entry == Spec.ParseEntry(old(Rest()), old(depthCurrent), limits).Result()
      decreases |Rest()|, 4
    {
      hide Spec.ParseKey, Spec.ParseValue, CodeLimits, IsUnused, Input.Valid;
      var key := ParseKey();
      if key == None {
        return None;
      }
      var value := ParseValue();
      entry := if value.Some? then Some(Entry(key.value, value.value)) else None;
    }

    /** pvt_parse_object, which stands at the '{'; whichever way it returns, the depth is back where it was. */
    method ParseObject() returns (value: Option<JsonValue>)
      requires Ready() && IsUnused(scratch, home) && Spec.Cur(Rest()) == LEFT_BRACE
      modifies this, input, input.lookBehind, input.lookBehind.buffer, scratch
      ensures Finished(Spec.ParseObject(old(Rest()), old(depthCurrent), limits), old(depthCurrent))
      ensures value == Spec.ParseObject(old(Rest()), old(depthCurrent), limits).Result()
      decreases |Rest()|, 2
    {
      hide Spec.ParseObjectBody, CodeLimits, IsUnused, Input.Valid;
      DepthLimit();
      depthCurrent := depthCurrent + 1;
      var exceeded := MaxDepthExceeded();
      if exceeded {
        depthCurrent := depthCurrent - 1;
        return None;
      }
      input.Advance(1);
      SkipWhitespace();
      value := ParseObjectBody();
      depthCurrent := depthCurrent - 1;
    }

    /** The part of pvt_parse_object between the '{' and the loop */
    method ParseObjectBody() returns (value: Option<JsonValue>)
      requires Ready() && IsUnused(scratch, home)
      modifies this, input, input.lookBehind, input.lookBehind.buffer, scratch
      ensures Finished(Spec.ParseObjectBody(old(Rest()), old(depthCurrent), limits), old(depthCurrent))
      ensures value == Spec.ParseObjectBody(old(Rest()), old(depthCurrent), limits).Result()
      decreases |Rest()|, 5
    {
      hide Spec.ParseMembers, Spec.ParseEntry, CodeLimits, IsUnused, Input.Valid;
      var c := input.CurrentChar();
      if c == NUL || c == RIGHT_BRACE {
        value := ParseMembers(Nil, 0);
        return;
      }
      var first := ParseEntry();
      if first == None {
        return None;
      }
      SkipWhitespace();
      assert Node(first.value, Nil).InOrder() == [first.value];
      value := ParseMembers(Node(first.value, Nil), 1);
    }

    /** One turn of the loop of pvt_parse_object */
    method ParseNextEntry() returns (next: Option<Entry>)
      requires Ready() && IsUnused(scratch, home)
      modifies this, input, input.lookBehind, input.lookBehind.buffer, scratch
      ensures Finished(Spec.ParseNextEntry(old(Rest()), old(depthCurrent), limits), old(depthCurrent))
      ensures next == Spec.ParseNextEntry(old(Rest()), old(depthCurrent), limits).Result()
      decreases |Rest()|, 0
    {
      hide Spec.ParseComma, Spec.ParseEntry, CodeLimits, IsUnused, Input.Valid;
      var ok := ParseComma(RIGHT_BRACE);
      if !ok {
        return None;
      }
      next := ParseEntry();
      if next.Some? {
        SkipWhitespace();
      }
    }

    /** The loop of pvt_parse_object and what follows it */
    method ParseMembers(first: List<Entry>, numFirst: nat) returns (value: Option<JsonValue>)
      requires Ready() && IsUnused(scratch, home) && numFirst == |first.InOrder()|
      modifies this, input, input.lookBehind, input.lookBehind.buffer, scratch
      ensures Finished(Spec.ParseMembers(old(Rest()), old(depthCurrent), limits, first.InOrder()), old(depthCurrent))
      ensures value == Spec.ParseMembers(old(Rest()), old(depthCurrent), limits, first.InOrder()).Result()
      decreases |Rest()|, 1
    {
      hide Spec.ParseNextEntry, Spec.ParseMembers, CodeLimits, IsUnused, Input.Valid;
      value := None;
      ghost var out := Spec.ParseMembers(Rest(), depthCurrent, limits, first.InOrder());
      var entries, count := first, numFirst;
      var c := input.CurrentChar();
      while c != NUL && c != RIGHT_BRACE
        invariant Ready() && IsUnused(scratch, home) && depthCurrent == old(depthCurrent) && |Rest()| <= old(|Rest()|)
        invariant c == Spec.Cur(Rest())
        invariant count == |entries.InOrder()|
        invariant Spec.ParseMembers(Rest(), depthCurrent, limits, entries.InOrder()) == out
        decreases |Rest()|
      {
        MembersStep(Rest(), depthCurrent, limits, entries.InOrder());
        var next := ParseNextEntry();
        if next == None {
          return;
        }
        entries, count := Node(next.value, entries), count + 1;
        c := input.CurrentChar();
      }
      MembersEnd(Rest(), depthCurrent, limits, entries.InOrder());
      if c != RIGHT_BRACE {
        RecordError(UnterminatedObject);
        return;
      }
      input.Advance(1);
      var members := ToArray(entries, count, Entry([], Null));
      value := Some(Object(members));
    }

    // ---------------------------------------------------------------------------------------------
    //  A whole text
    // ---------------------------------------------------------------------------------------------

    /** pvt_is_rejected_due_to_bom. The UTF-32 marks hold NULs or start like a UTF-16 mark, so no C string gets
        as far as the tests for them. */
    method RejectedDueToBom() returns (rejected: bool)
      requires Ready()
      modifies this, input, input.lookBehind, input.lookBehind.buffer
      ensures Valid() && depthCurrent == old(depthCurrent)
      ensures rejected <==> Spec.UTF16_BE_BOM <= old(Rest()) || Spec.UTF16_LE_BOM <= old(Rest())
      ensures if rejected then Rest() == old(Rest())[2..] && error == Some(UnexpectedUtf16Encoding)
              else Rest() == Spec.SkipBom(old(Rest())) && error == None
    {
      var be := input.StartsWith(Spec.UTF16_BE_BOM);
      var le := input.StartsWith(Spec.UTF16_LE_BOM);
      if be || le {
        assert input.text[input.index..input.index + 2] == Rest()[..2];
        input.Advance(2);
        RecordError(UnexpectedUtf16Encoding);
        return true;
      }
      var utf8 := input.StartsWith(Spec.UTF8_BOM);
      if utf8 {
        assert input.text[input.index..input.index + 3] == Rest()[..3];
        input.Advance(3);
      }
      return false;
    }

    /** pvt_jsonp_parse_impl after the byte order mark */
    method ParseBody() returns (value: Option<JsonValue>)
      requires Ready() && IsUnused(scratch, home) && depthCurrent == 0
      modifies this, input, input.lookBehind, input.lookBehind.buffer, scratch
      ensures Finished(Spec.ParseBody(old(Rest()), limits), 0)
      ensures value == Spec.ParseBody(old(Rest()), limits).Result()
    {
      hide Spec.ParseValue, CodeLimits, IsUnused, Input.Valid;
      SkipWhitespace();
      var c := input.CurrentChar();
      if c == NUL || c == EOF_BYTE {
        RecordError(EmptyText);
        return None;
      }
      value := ParseValue();
      if error != None {
        return None;
      }
      SkipWhitespace();
      c := input.CurrentChar();
      if c != EOF_BYTE && c != NUL {
        RecordError(UnexpectedText);
        return None;
      }
    }

    /** pvt_jsonp_parse_impl */
    method ParseImpl() returns (value: Option<JsonValue>)
      requires Ready() && IsUnused(scratch, home) && depthCurrent == 0 && Rest() != [] && Rest()[0] != NUL
      modifies this, input, input.lookBehind, input.lookBehind.buffer, scratch
      ensures Finished(Spec.Parse(old(Rest()), limits), 0)
      ensures value == Spec.Parse(old(Rest()), limits).Result()
    {
      hide Spec.ParseBody;
      var rejected := RejectedDueToBom();
      if rejected {
        return None;
      }
      value := ParseBody();
    }
  }

  lemma CharsStep(s: Text, acc: Text, room: nat)
    requires Spec.Cur(s) != NUL && Spec.Cur(s) != QUOTE
    ensures var p, r := Spec.ParseChar(s), Spec.ParseChars(s, acc, room);
            && (p.Err? ==> r == p)
            && (p.Ok? && room < |acc| + |p.value| ==> r == Err(MemoryOverrun, p.rest))
            && (p.Ok? && |acc| + |p.value| <= room ==> r == Spec.ParseChars(p.rest, acc + p.value, room))
  {
  }

  lemma CharsEnd(s: Text, acc: Text, room: nat)
    ensures Spec.Cur(s) == NUL ==> Spec.ParseChars(s, acc, room) == Err(UnterminatedString, s)
    ensures Spec.Cur(s) == QUOTE ==> Spec.ParseChars(s, acc, room) == Ok(acc, s[1..])
  {
  }

  lemma ElementsStep(s: Text, depth: nat, max: Limits, acc: seq<JsonValue>)
    requires Spec.Cur(s) != NUL && Spec.Cur(s) != RIGHT_BRACKET
    ensures var p, r := Spec.ParseNextElement(s, depth, max), Spec.ParseElements(s, depth, max, acc);
            && (p.Err? ==> r == Err(p.error, p.rest))
            && (p.Ok? ==> r == Spec.ParseElements(p.rest, depth, max, acc + [p.value]))
  {
  }

  lemma ElementsEnd(s: Text, depth: nat, max: Limits, acc: seq<JsonValue>)
    ensures Spec.Cur(s) == NUL ==> Spec.ParseElements(s, depth, max, acc) == Err(UnterminatedArray, s)
    ensures Spec.Cur(s) == RIGHT_BRACKET ==>
              Spec.ParseElements(s, depth, max, acc) == Ok(Array(acc), Spec.SkipWs(s[1..]))
  {
  }

  lemma MembersStep(s: Text, depth: nat, max: Limits, acc: seq<Entry>)
    requires Spec.Cur(s) != NUL && Spec.Cur(s) != RIGHT_BRACE
    ensures var p, r := Spec.ParseNextEntry(s, depth, max), Spec.ParseMembers(s, depth, max, acc);
            && (p.Err? ==> r == Err(p.error, p.rest))
            && (p.Ok? ==> r == Spec.ParseMembers(p.rest, depth, max, acc + [p.value]))
  {
  }

  lemma MembersEnd(s: Text, depth: nat, max: Limits, acc: seq<Entry>)
    ensures Spec.Cur(s) == NUL ==> Spec.ParseMembers(s, depth, max, acc) == Err(UnterminatedObject, s)
    ensures Spec.Cur(s) == RIGHT_BRACE ==> Spec.ParseMembers(s, depth, max, acc) == Ok(Object(acc), s[1..])
  {
  }

  lemma LiteralStep(s: Text, keyword: Text, i: nat, literal: JsonValue)
    requires i < |keyword| && Spec.Cur(s) != NUL
    ensures Spec.ParseLiteral(s, keyword[i..], literal)
         == if s[0] == keyword[i] then Spec.ParseLiteral(s[1..], keyword[i + 1..], literal) else Err(UnexpectedText, s)
  {
    assert keyword[i..][1..] == keyword[i + 1..];
  }

  lemma LiteralEnd(s: Text, keyword: Text, i: nat, literal: JsonValue)
    requires i <= |keyword|
    ensures i == |keyword| ==> Spec.ParseLiteral(s, keyword[i..], literal) == Ok(literal, s)
    ensures i < |keyword| && Spec.Cur(s) == NUL ==> Spec.ParseLiteral(s, keyword[i..], literal) == Err(UnexpectedEof, s)
  {
  }

  lemma ZeroLexeme()
    ensures Spec.IntegerValue([ZERO]) == Long(0)
    ensures Spec.IntegerValue([MINUS, ZERO]) == Long(0)
  {
    var zero, minusZero: Text := [ZERO], [MINUS, ZERO];
    assert minusZero[1..] == zero && zero[..|zero| - 1] == [];
    assert DecimalValue(zero) == 0;
  }

  /** A quote and a byte 0xFF end in an error after which the scratch arena is not released. */
  lemma InvalidByteLeavesScratch(max: Limits)
    ensures var error := Spec.Parse([QUOTE, EOF_BYTE], max).ErrorCode();
            error == Some(InvalidUtf8StartByte) && LeavesScratch(error)
  {
    var text: Text, rest: Text := [QUOTE, EOF_BYTE], [EOF_BYTE];
    assert text[1..] == rest;
    assert Spec.ParseChars(rest, [], max.room) == Err(InvalidUtf8StartByte, rest);
    assert Spec.SkipWs(text) == text && Spec.SkipBom(text) == text;
    assert Spec.ParseValue(text, 0, max) == Err(InvalidUtf8StartByte, rest);
  }

  /** jsonp_parse_string with a depth limit, on a thread whose scratch arena stands where a string can be built. Without
      an overrun the arena stands there again, unless the error was invalid UTF-8. */
  method ParseText(text: Text, depthMax: nat, scratch: GrowingArena)
    returns (value: Option<JsonValue>, error: Option<ErrorType>)
    requires NulFree(text) && IsUnused(scratch, Place(scratch))
    modifies scratch
    ensures var out := Spec.Parse(text, CodeLimits(depthMax, scratch.defaultBlockSize, old(scratch.offset)));
            value == out.Result() && error == out.ErrorCode()
    ensures error != Some(MemoryOverrun) ==> (IsUnused(scratch, old(Place(scratch))) <==> !LeavesScratch(error))
  {
    hide Spec.ParseBody, Outgrown;
    if text == [] {
      return None, Some(EmptyText);
    }
    var input := new Input(text);
    var context := new JsonContext(input, depthMax, scratch);
    value := context.ParseImpl();
    error := context.error;
  }
}
