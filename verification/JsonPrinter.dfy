/** json_pretty_printer.c printing into a StringBuilder, proved to append exactly what JsonPrinterSpec says. */
module JsonPrinter {
  import opened Bytes
  import opened JsonBytes
  import opened JsonValues
  import opened JsonPrinterSpec
  import opened StringBuilders
  import Bits

  /** The size of the buffer in sb_vprint */
  const PRINT_BUFFER_SIZE: nat := 1024
  /** MAX_NESTING_DEPTH: SPACERS[n] is a string of n spaces. */
  const NUM_SPACERS: nat := 256

  ghost predicate OnHeap(sb: StringBuilder)
    reads sb, sb.mem
  {
    sb.arena == null && sb.Valid()
  }

  /** mprintf through sb_vprint: at most 1023 bytes of the formatted text are appended. */
  method Mprintf(sb: StringBuilder, formatted: Text)
    requires OnHeap(sb) && NulFree(formatted)
    modifies sb, sb.mem
    ensures OnHeap(sb) && (sb.mem == old(sb.mem) || fresh(sb.mem))
    ensures sb.Contents() == old(sb.Contents()) + formatted[..Min(|formatted|, 1023)]
  {
    var buf := formatted[..Min(|formatted|, PRINT_BUFFER_SIZE - 1)];
    if 0 < |buf| {
      var ok := sb.AppendStr(buf);
    } else {
      assert sb.Contents() + buf == sb.Contents();
    }
  }

  /** Appends a text that is known to fit into the buffer. */
  method Put(sb: StringBuilder, formatted: Text)
    requires OnHeap(sb) && NulFree(formatted) && |formatted| < PRINT_BUFFER_SIZE
    modifies sb, sb.mem
    ensures OnHeap(sb) && (sb.mem == old(sb.mem) || fresh(sb.mem))
    ensures sb.Contents() == old(sb.Contents()) + formatted
  {
    assert formatted[..|formatted|] == formatted;
    Mprintf(sb, formatted);
  }

  /** jsonp_fprint_string */
  method FprintString(sb: StringBuilder, text: Text)
    requires OnHeap(sb)
    modifies sb, sb.mem
    ensures OnHeap(sb) && (sb.mem == old(sb.mem) || fresh(sb.mem))
    ensures sb.Contents() == old(sb.Contents()) + PrintString(text)
  {
    hide StringBuilder.Contents, EscapeByte;
    ghost var before := sb.Contents();
    Put(sb, [QUOTE]);
    var i := 0;
    while i < |text|
      invariant i <= |text| && OnHeap(sb) && (sb.mem == old(sb.mem) || fresh(sb.mem))
      invariant sb.Contents() + (EscapeBytes(text[i..]) + [QUOTE]) == before + PrintString(text)
    {
      ghost var now := sb.Contents();
      Put(sb, EscapeByte(text[i]));
      assert text[i..][1..] == text[i + 1..];
      Reassociate(now, EscapeByte(text[i]), EscapeBytes(text[i + 1..]), [QUOTE]);
      i := i + 1;
    }
    assert EscapeBytes(text[i..]) + [QUOTE] == [QUOTE];
    Put(sb, [QUOTE]);
  }

  lemma Reassociate(a: Text, b: Text, c: Text, d: Text)
    ensures a + b + (c + d) == a + ((b + c) + d)
    ensures a + b + c == a + (b + c)
  {
    assert a + b + (c + d) == a + (b + (c + d));
    assert b + (c + d) == b + c + d;
  }

  /** jsonp_fprint_scalar */
  method FprintScalar(sb: StringBuilder, v: JsonValue)
    requires OnHeap(sb) && NoDoubles(v) && !v.Array? && !v.Object?
    modifies sb, sb.mem
    ensures OnHeap(sb) && (sb.mem == old(sb.mem) || fresh(sb.mem))
    ensures sb.Contents() == old(sb.Contents()) + PrintScalar(v)
  {
    hide StringBuilder.Contents;
    match v {
      case Null => Put(sb, KEYWORD_NULL);
      case Boolean(b) => Put(sb, if b then KEYWORD_TRUE else KEYWORD_FALSE);
      case Long(n) =>
        DigitsAreShort(if n < 0 then 0 - n else n);
        Put(sb, Decimal(n));
      case String(text) => FprintString(sb, text);
    }
  }

  // ---------------------------------------------------------------------------------------------
  //  On a single line
  // ---------------------------------------------------------------------------------------------

  /** jsonp_print_single_line. The nesting level makes no difference. */
  method PrintSingleLine(sb: StringBuilder, v: JsonValue, ghost level: nat)
    requires OnHeap(sb) && NoDoubles(v)
    modifies sb, sb.mem
    ensures OnHeap(sb) && (sb.mem == old(sb.mem) || fresh(sb.mem))
    ensures sb.Contents() == old(sb.Contents()) + Print(v, SingleLine, level)
    decreases v, 1
  {
    hide StringBuilder.Contents;
    if v.Object? {
      FprintObjectSingleLine(sb, v, level);
    } else if v.Array? {
      FprintArraySingleLine(sb, v, level);
    } else {
      FprintScalar(sb, v);
    }
  }

  /** jsonp_fprint_object_single_line */
  method FprintObjectSingleLine(sb: StringBuilder, v: JsonValue, ghost level: nat)
    requires OnHeap(sb) && NoDoubles(v) && v.Object?
    modifies sb, sb.mem
    ensures OnHeap(sb) && (sb.mem == old(sb.mem) || fresh(sb.mem))
    ensures sb.Contents() == old(sb.Contents()) + Print(v, SingleLine, level)
    decreases v, 0
  {
    hide StringBuilder.Contents, StringBuilder.Valid, PrintKey, Print, PrintOthers, PrintEntry;
    var es := v.entries;
    ObjectText(v, SingleLine, level);
    if |es| == 0 {
      Put(sb, [LEFT_BRACE, SPACE, RIGHT_BRACE]);
      return;
    }
    ghost var end: Text := [SPACE] + [RIGHT_BRACE];
    ghost var before := sb.Contents();
    ghost var target := before + Print(v, SingleLine, level);
    PutEntryOnLine(sb, [LEFT_BRACE] + [SPACE], es[0], level + 1);
    EntryAfter(before, [LEFT_BRACE], [SPACE], PrintKey(es[0].key), Print(es[0].value, SingleLine, level + 1),
               PrintOthers(es[1..], SingleLine, level + 1, end));
    var i := 1;
    while i < |es|
      invariant 1 <= i <= |es| && OnHeap(sb) && (sb.mem == old(sb.mem) || fresh(sb.mem))
      invariant sb.Contents() + PrintOthers(es[i..], SingleLine, level + 1, end) == target
    {
      ghost var now := sb.Contents();
      PutEntryOnLine(sb, [COMMA] + [SPACE], es[i], level + 1);
      OthersStep(now, es, i, SingleLine, level + 1, end);
      i := i + 1;
    }
    OthersText(es[i..], SingleLine, level + 1, end);
    Put(sb, [SPACE] + [RIGHT_BRACE]);
  }

  /** An entry with what comes before it */
  method PutEntryOnLine(sb: StringBuilder, prefix: Text, e: Entry, ghost level: nat)
    requires OnHeap(sb) && NulFree(prefix) && |prefix| < 512 && NoDoubles(e.value)
    modifies sb, sb.mem
    ensures OnHeap(sb) && (sb.mem == old(sb.mem) || fresh(sb.mem))
    ensures sb.Contents() == old(sb.Contents()) + (prefix + PrintKey(e.key)) + Print(e.value, SingleLine, level)
    decreases e
  {
    hide StringBuilder.Contents, StringBuilder.Valid, Print, PrintKey;
    PutKey(sb, prefix, e.key);
    PrintSingleLine(sb, e.value, level);
  }

  /** jsonp_fprint_array_single_line */
  method FprintArraySingleLine(sb: StringBuilder, v: JsonValue, ghost level: nat)
    requires OnHeap(sb) && NoDoubles(v) && v.Array?
    modifies sb, sb.mem
    ensures OnHeap(sb) && (sb.mem == old(sb.mem) || fresh(sb.mem))
    ensures sb.Contents() == old(sb.Contents()) + Print(v, SingleLine, level)
    decreases v, 0
  {
    hide StringBuilder.Contents, StringBuilder.Valid, Print, PrintMore;
    var es := v.elements;
    ArrayText(v, SingleLine, level);
    if |es| == 0 {
      Put(sb, [LEFT_BRACKET, RIGHT_BRACKET]);
      return;
    }
    ghost var end: Text := [SPACE] + [RIGHT_BRACKET];
    ghost var before := sb.Contents();
    ghost var target := before + Print(v, SingleLine, level);
    PutElementOnLine(sb, [LEFT_BRACKET] + [SPACE], es[0], level + 1);
    ElementAfter(before, [LEFT_BRACKET], [SPACE], Print(es[0], SingleLine, level + 1),
                 PrintMore(es[1..], SingleLine, level + 1, end));
    var i := 1;
    while i < |es|
      invariant 1 <= i <= |es| && OnHeap(sb) && (sb.mem == old(sb.mem) || fresh(sb.mem))
      invariant sb.Contents() + PrintMore(es[i..], SingleLine, level + 1, end) == target
    {
      ghost var now := sb.Contents();
      PutElementOnLine(sb, [COMMA] + [SPACE], es[i], level + 1);
      MoreStep(now, es, i, SingleLine, level + 1, end);
      i := i + 1;
    }
    MoreText(es[i..], SingleLine, level + 1, end);
    Put(sb, [SPACE] + [RIGHT_BRACKET]);
  }

  /** An element with what comes before it */
  method PutElementOnLine(sb: StringBuilder, prefix: Text, v: JsonValue, ghost level: nat)
    requires OnHeap(sb) && NulFree(prefix) && |prefix| < 512 && NoDoubles(v)
    modifies sb, sb.mem
    ensures OnHeap(sb) && (sb.mem == old(sb.mem) || fresh(sb.mem))
    ensures sb.Contents() == old(sb.Contents()) + prefix + Print(v, SingleLine, level)
    decreases v, 2
  {
    hide StringBuilder.Contents, StringBuilder.Valid, Print;
    Put(sb, prefix);
    PrintSingleLine(sb, v, level);
  }

  // ---------------------------------------------------------------------------------------------
  //  On several lines
  // ---------------------------------------------------------------------------------------------

  /** Every index into SPACERS is in range. */
  predicate Fits(level: nat, levels: nat, indent: nat) {
    (level + levels) * indent < NUM_SPACERS
  }

  /** SPACERS, as pvt_init_spacers leaves it: row i is a string of i spaces. */
  ghost predicate IsTable(spacers: array2<Byte>)
    reads spacers
  {
    && spacers.Length0 == spacers.Length1 == NUM_SPACERS
    && forall i, j :: 0 <= i < NUM_SPACERS && 0 <= j < NUM_SPACERS ==> spacers[i, j] == if j < i then SPACE else NUL
  }

  /** pvt_init_spacers, on a table that is zero before */
  method InitSpacers() returns (spacers: array2<Byte>)
    ensures fresh(spacers) && IsTable(spacers)
  {
    spacers := new Byte[NUM_SPACERS, NUM_SPACERS]((_, _) => NUL);
    for i := 0 to NUM_SPACERS
      invariant forall k, j :: 0 <= k < i && 0 <= j < NUM_SPACERS ==> spacers[k, j] == if j < k then SPACE else NUL
      invariant forall k, j :: i <= k < NUM_SPACERS && 0 <= j < NUM_SPACERS ==> spacers[k, j] == NUL
    {
      forall j | 0 <= j < i {
        spacers[i, j] := SPACE;
      }
      spacers[i, i] := NUL;
    }
  }

  /** SPACERS[nesting_level * indent], as "%s" prints it */
  method Spacer(spacers: array2<Byte>, level: nat, indent: nat) returns (spaces: Text)
    requires IsTable(spacers) && Fits(level, 0, indent)
    ensures [NEWLINE] + spaces == Gap(MultiLine(indent), level)
    ensures NulFree(spaces) && |spaces| < NUM_SPACERS
  {
    var i := level * indent;
    spaces := [];
    while spacers[i, |spaces|] != NUL
      invariant |spaces| <= i < NUM_SPACERS && spaces == Repeat(SPACE, |spaces|)
      decreases i - |spaces|
    {
      spaces := spaces + [spacers[i, |spaces|]];
    }
  }

  /** jsonp_print_multi_line */
  method PrintMultiLine(sb: StringBuilder, spacers: array2<Byte>, v: JsonValue, level: nat, indent: nat)
    requires OnHeap(sb) && IsTable(spacers) && NoDoubles(v) && Fits(level, Levels(v), indent)
    modifies sb, sb.mem
    ensures OnHeap(sb) && (sb.mem == old(sb.mem) || fresh(sb.mem))
    ensures sb.Contents() == old(sb.Contents()) + Print(v, MultiLine(indent), level)
    decreases v, 1
  {
    hide StringBuilder.Contents;
    if v.Object? {
      Put(sb, [LEFT_BRACE]);
      FprintObjectMultiLine(sb, spacers, v, level, indent, old(sb.Contents()));
    } else if v.Array? {
      Put(sb, [LEFT_BRACKET]);
      FprintArrayMultiLine(sb, spacers, v, level, indent, old(sb.Contents()));
    } else {
      FprintScalar(sb, v);
    }
  }

  /** jsonp_fprint_object_multi_line, after the opening brace */
  method FprintObjectMultiLine(sb: StringBuilder, spacers: array2<Byte>, v: JsonValue, level: nat, indent: nat,
                               ghost before: Text)
    requires OnHeap(sb) && IsTable(spacers) && NoDoubles(v) && v.Object? && Fits(level, Levels(v), indent)
    requires sb.Contents() == before + [LEFT_BRACE]
    modifies sb, sb.mem
    ensures OnHeap(sb) && (sb.mem == old(sb.mem) || fresh(sb.mem))
    ensures sb.Contents() == before + Print(v, MultiLine(indent), level)
    decreases v, 0
  {
    hide StringBuilder.Contents, StringBuilder.Valid, Print, PrintKey, PrintOthers, PrintEntry, Gap, Levels, Fits;
    hide IsTable;
    var es := v.entries;
    ghost var l := MultiLine(indent);
    ObjectText(v, l, level);
    if |es| == 0 {
      assert [LEFT_BRACE] + ([] + [RIGHT_BRACE]) == [LEFT_BRACE] + [RIGHT_BRACE];
      Put(sb, [RIGHT_BRACE]);
      return;
    }
    EntriesFit(v, level, indent);
    ghost var end := Gap(l, level) + [RIGHT_BRACE];
    ghost var target := before + Print(v, l, level);
    var indentStr := Spacer(spacers, level + 1, indent);
    PutEntry(sb, spacers, [NEWLINE] + indentStr, es[0], level + 1, indent);
    FirstEntryAfter(before, [LEFT_BRACE], Gap(l, level + 1), PrintKey(es[0].key), Print(es[0].value, l, level + 1),
               PrintOthers(es[1..], l, level + 1, end));
    var i := 1;
    while i < |es|
      invariant 1 <= i <= |es| && OnHeap(sb) && (sb.mem == old(sb.mem) || fresh(sb.mem))
      invariant sb.Contents() + PrintOthers(es[i..], l, level + 1, end) == target
    {
      ghost var now := sb.Contents();
      PutEntry(sb, spacers, [COMMA] + ([NEWLINE] + indentStr), es[i], level + 1, indent);
      OthersStep(now, es, i, l, level + 1, end);
      i := i + 1;
    }
    OthersText(es[i..], l, level + 1, end);
    indentStr := Spacer(spacers, level, indent);
    Put(sb, ([NEWLINE] + indentStr) + [RIGHT_BRACE]);
  }

  /** An entry with what comes before it */
  method PutEntry(sb: StringBuilder, spacers: array2<Byte>, prefix: Text, e: Entry, level: nat, indent: nat)
    requires OnHeap(sb) && NulFree(prefix) && |prefix| < 512
    requires IsTable(spacers) && NoDoubles(e.value) && Fits(level, Levels(e.value), indent)
    modifies sb, sb.mem
    ensures OnHeap(sb) && (sb.mem == old(sb.mem) || fresh(sb.mem))
    ensures sb.Contents()
         == old(sb.Contents()) + (prefix + PrintKey(e.key)) + Print(e.value, MultiLine(indent), level)
    decreases e
  {
    hide StringBuilder.Contents, StringBuilder.Valid, Print, PrintKey, Levels, Fits;
    PutKey(sb, prefix, e.key);
    PrintMultiLine(sb, spacers, e.value, level, indent);
  }

  /** jsonp_fprint_array_multi_line, after the opening bracket */
  method FprintArrayMultiLine(sb: StringBuilder, spacers: array2<Byte>, v: JsonValue, level: nat, indent: nat,
                              ghost before: Text)
    requires OnHeap(sb) && IsTable(spacers) && NoDoubles(v) && v.Array? && Fits(level, Levels(v), indent)
    requires sb.Contents() == before + [LEFT_BRACKET]
    modifies sb, sb.mem
    ensures OnHeap(sb) && (sb.mem == old(sb.mem) || fresh(sb.mem))
    ensures sb.Contents() == before + Print(v, MultiLine(indent), level)
    decreases v, 0
  {
    hide StringBuilder.Contents, StringBuilder.Valid, Print, PrintMore, Gap, Levels, Fits, IsTable;
    var es := v.elements;
    ghost var l := MultiLine(indent);
    ArrayText(v, l, level);
    if |es| == 0 {
      assert [LEFT_BRACKET, RIGHT_BRACKET] == [LEFT_BRACKET] + [RIGHT_BRACKET];
      Put(sb, [RIGHT_BRACKET]);
      return;
    }
    ElementsFit(v, level, indent);
    ghost var end := Gap(l, level) + [RIGHT_BRACKET];
    ghost var target := before + Print(v, l, level);
    var indentStr := Spacer(spacers, level + 1, indent);
    PutElement(sb, spacers, [NEWLINE] + indentStr, es[0], level + 1, indent);
    ElementAfter(before, [LEFT_BRACKET], Gap(l, level + 1), Print(es[0], l, level + 1),
                 PrintMore(es[1..], l, level + 1, end));
    var i := 1;
    while i < |es|
      invariant 1 <= i <= |es| && OnHeap(sb) && (sb.mem == old(sb.mem) || fresh(sb.mem))
      invariant sb.Contents() + PrintMore(es[i..], l, level + 1, end) == target
    {
      ghost var now := sb.Contents();
      PutElement(sb, spacers, [COMMA] + ([NEWLINE] + indentStr), es[i], level + 1, indent);
      MoreStep(now, es, i, l, level + 1, end);
      i := i + 1;
    }
    MoreText(es[i..], l, level + 1, end);
    indentStr := Spacer(spacers, level, indent);
    Put(sb, ([NEWLINE] + indentStr) + [RIGHT_BRACKET]);
  }

  /** An element with what comes before it */
  method PutElement(sb: StringBuilder, spacers: array2<Byte>, prefix: Text, v: JsonValue, level: nat, indent: nat)
    requires OnHeap(sb) && NulFree(prefix) && |prefix| < 512
    requires IsTable(spacers) && NoDoubles(v) && Fits(level, Levels(v), indent)
    modifies sb, sb.mem
    ensures OnHeap(sb) && (sb.mem == old(sb.mem) || fresh(sb.mem))
    ensures sb.Contents() == old(sb.Contents()) + prefix + Print(v, MultiLine(indent), level)
    decreases v, 2
  {
    hide StringBuilder.Contents, StringBuilder.Valid, Print, Levels, Fits;
    Put(sb, prefix);
    PrintMultiLine(sb, spacers, v, level, indent);
  }

  lemma {:induction false} LevelsOfElement(es: seq<JsonValue>, i: nat)
    requires i < |es|
    ensures Levels(es[i]) <= ElementsLevels(es)
  {
    if 0 < i {
      LevelsOfElement(es[1..], i - 1);
    }
  }

  lemma {:induction false} LevelsOfEntry(es: seq<Entry>, i: nat)
    requires i < |es|
    ensures Levels(es[i].value) <= EntriesLevels(es)
  {
    if 0 < i {
      LevelsOfEntry(es[1..], i - 1);
    }
  }

  lemma FitsBelow(level: nat, levels: nat, indent: nat, lower: nat)
    requires Fits(level, levels, indent) && lower <= level + levels
    ensures Fits(lower, 0, indent)
    ensures forall a: nat, b: nat :: a + b == lower ==> Fits(a, b, indent)
  {
    Bits.MulLe(lower, level + levels, indent);
  }

  lemma ElementsFit(v: JsonValue, level: nat, indent: nat)
    requires v.Array? && v.elements != [] && Fits(level, Levels(v), indent)
    ensures Fits(level, 0, indent) && Fits(level + 1, 0, indent)
    ensures forall i :: 0 <= i < |v.elements| ==> Fits(level + 1, Levels(v.elements[i]), indent)
  {
    FitsBelow(level, Levels(v), indent, level);
    FitsBelow(level, Levels(v), indent, level + 1);
    forall i | 0 <= i < |v.elements| ensures Fits(level + 1, Levels(v.elements[i]), indent) {
      LevelsOfElement(v.elements, i);
      FitsBelow(level, Levels(v), indent, level + 1 + Levels(v.elements[i]));
    }
  }

  lemma EntriesFit(v: JsonValue, level: nat, indent: nat)
    requires v.Object? && v.entries != [] && Fits(level, Levels(v), indent)
    ensures Fits(level, 0, indent) && Fits(level + 1, 0, indent)
    ensures forall i :: 0 <= i < |v.entries| ==> Fits(level + 1, Levels(v.entries[i].value), indent)
  {
    FitsBelow(level, Levels(v), indent, level);
    FitsBelow(level, Levels(v), indent, level + 1);
    forall i | 0 <= i < |v.entries| ensures Fits(level + 1, Levels(v.entries[i].value), indent) {
      LevelsOfEntry(v.entries, i);
      FitsBelow(level, Levels(v), indent, level + 1 + Levels(v.entries[i].value));
    }
  }

  /** jsonp_sprint into a builder with room for anything; flags.indent is the layout's. */
  method Sprint(sb: StringBuilder, v: JsonValue, l: Layout)
    requires OnHeap(sb) && NoDoubles(v)
    requires l.MultiLine? ==> Levels(v) * l.indent < 256
    modifies sb, sb.mem
    ensures OnHeap(sb) && (sb.mem == old(sb.mem) || fresh(sb.mem))
    ensures sb.Contents() == old(sb.Contents()) + Print(v, l, 0)
  {
    match l {
      case SingleLine => PrintSingleLine(sb, v, 0);
      case MultiLine(indent) =>
        var spacers := InitSpacers();
        PrintMultiLine(sb, spacers, v, 0, indent);
    }
  }

  /** A key with what comes before it */
  method PutKey(sb: StringBuilder, prefix: Text, key: Text)
    requires OnHeap(sb) && NulFree(prefix) && |prefix| < 512
    modifies sb, sb.mem
    ensures OnHeap(sb) && (sb.mem == old(sb.mem) || fresh(sb.mem))
    ensures sb.Contents() == old(sb.Contents()) + (prefix + PrintKey(key))
  {
    hide StringBuilder.Contents, RawKey;
    Put(sb, prefix + PrintKey(key));
  }

  /** Pieces that are appended one after another, against the same pieces as PrintMore nests them */
  lemma ElementAfter(a: Text, open: Text, gap: Text, value: Text, more: Text)
    ensures a + (open + gap) + value + more == a + (open + (gap + (value + more)))
  {
  }

  lemma EntryAfter(a: Text, open: Text, gap: Text, key: Text, value: Text, more: Text)
    ensures a + ((open + gap) + key) + value + more == a + (open + (gap + ((key + value) + more)))
  {
  }

  lemma FirstEntryAfter(a: Text, open: Text, gap: Text, key: Text, value: Text, more: Text)
    ensures a + open + (gap + key) + value + more == a + (open + (gap + ((key + value) + more)))
  {
  }

  lemma ArrayText(v: JsonValue, l: Layout, level: nat)
    requires NoDoubles(v) && v.Array?
    ensures var es := v.elements;
            if es == [] then Print(v, l, level) == [LEFT_BRACKET, RIGHT_BRACKET]
            else Print(v, l, level) == [LEFT_BRACKET] + (Gap(l, level + 1) + (Print(es[0], l, level + 1)
                                       + PrintMore(es[1..], l, level + 1, Gap(l, level) + [RIGHT_BRACKET])))
  {
  }

  lemma MoreText(es: seq<JsonValue>, l: Layout, level: nat, end: Text)
    requires forall i :: 0 <= i < |es| ==> NoDoubles(es[i])
    ensures PrintMore(es, l, level, end)
         == if es == [] then end
            else [COMMA] + (Gap(l, level) + (Print(es[0], l, level) + PrintMore(es[1..], l, level, end)))
  {
  }

  lemma ObjectText(v: JsonValue, l: Layout, level: nat)
    requires NoDoubles(v) && v.Object?
    ensures var es := v.entries;
            if es == [] then Print(v, l, level) == [LEFT_BRACE] + (EmptyGap(l) + [RIGHT_BRACE])
            else Print(v, l, level) == [LEFT_BRACE] + (Gap(l, level + 1)
                                       + ((PrintKey(es[0].key) + Print(es[0].value, l, level + 1))
                                          + PrintOthers(es[1..], l, level + 1, Gap(l, level) + [RIGHT_BRACE])))
  {
  }

  lemma OthersText(es: seq<Entry>, l: Layout, level: nat, end: Text)
    requires forall i :: 0 <= i < |es| ==> NoDoubles(es[i].value)
    ensures PrintOthers(es, l, level, end)
         == if es == [] then end
            else [COMMA] + (Gap(l, level) + ((PrintKey(es[0].key) + Print(es[0].value, l, level))
                            + PrintOthers(es[1..], l, level, end)))
  {
  }

  /** One turn of the loop over the elements */
  lemma MoreStep(now: Text, es: seq<JsonValue>, i: nat, l: Layout, level: nat, end: Text)
    requires i < |es| && forall i :: 0 <= i < |es| ==> NoDoubles(es[i])
    ensures now + ([COMMA] + Gap(l, level)) + Print(es[i], l, level) + PrintMore(es[i + 1..], l, level, end)
         == now + PrintMore(es[i..], l, level, end)
  {
    hide Gap, Print, NoDoubles;
    assert es[i..][1..] == es[i + 1..];
    ElementAfter(now, [COMMA], Gap(l, level), Print(es[i], l, level), PrintMore(es[i + 1..], l, level, end));
  }

  /** One turn of the loop over the entries */
  lemma OthersStep(now: Text, es: seq<Entry>, i: nat, l: Layout, level: nat, end: Text)
    requires i < |es| && forall i :: 0 <= i < |es| ==> NoDoubles(es[i].value)
    ensures now + (([COMMA] + Gap(l, level)) + PrintKey(es[i].key)) + Print(es[i].value, l, level)
            + PrintOthers(es[i + 1..], l, level, end)
         == now + PrintOthers(es[i..], l, level, end)
  {
    hide Gap, Print, PrintKey, NoDoubles;
    assert es[i..][1..] == es[i + 1..];
    EntryAfter(now, [COMMA], Gap(l, level), PrintKey(es[i].key), Print(es[i].value, l, level),
               PrintOthers(es[i + 1..], l, level, end));
  }
}
