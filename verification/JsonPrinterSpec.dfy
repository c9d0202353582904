/** The text that json_pretty_printer.c produces, as a function. Both layouts print the same tokens; they differ
    in the gaps between them. */
module JsonPrinterSpec {
  import opened Bytes
  import opened JsonBytes
  import opened JsonValues

  const SPACE: Byte := 0x20
  const NEWLINE: Byte := 0x0A
  /** Keys go through a buffer of 128 bytes. */
  const MAX_KEY: nat := 127

  /** JsonFormatFlags */
  datatype Layout = SingleLine | MultiLine(indent: nat)

  /** What stands before an element, a member or a closing bracket at the given nesting level. */
  function Gap(l: Layout, level: nat): Text {
    match l
    case SingleLine => [SPACE]
    case MultiLine(indent) => [NEWLINE] + Repeat(SPACE, level * indent)
  }

  /** What stands between the braces of an empty object. */
  function EmptyGap(l: Layout): Text {
    if l.SingleLine? then [SPACE] else []
  }

  /** A double is printed with "%.17g", which is outside this model. */
  predicate NoDoubles(v: JsonValue) {
    match v
    case Double(_) => false
    case Array(es) => forall i :: 0 <= i < |es| ==> NoDoubles(es[i])
    case Object(es) => forall i :: 0 <= i < |es| ==> NoDoubles(es[i].value)
    case _ => true
  }

  // ---------------------------------------------------------------------------------------------
  //  Scalars
  // ---------------------------------------------------------------------------------------------

  function Digits(n: nat): (r: Text)
    ensures r != [] && forall i :: 0 <= i < |r| ==> IsDigit(r[i])
  {
    if n < 10 then [ZERO + n] else Digits(n / 10) + [ZERO + n % 10]
  }

  /** "%ld" */
  function Decimal(n: int): Text {
    if n < 0 then [MINUS] + Digits(0 - n) else Digits(n)
  }

  lemma {:induction false} PowSum(b: nat, m: nat, n: nat)
    ensures Pow(b, m + n) == Pow(b, m) * Pow(b, n)
  {
    if m != 0 {
      PowSum(b, m - 1, n);
      ProductAssociates(b, Pow(b, m - 1), Pow(b, n));
    }
  }

  lemma ProductAssociates(a: int, b: int, c: int)
    ensures a * (b * c) == (a * b) * c
  {
  }

  lemma TenToTheTwenty()
    ensures Pow(10, 20) == 100_000_000_000_000_000_000
  {
    PowSum(10, 2, 2);
    PowSum(10, 4, 4);
    PowSum(10, 8, 8);
    PowSum(10, 16, 4);
  }

  lemma DigitsAreShort(n: nat)
    requires n <= 0x8000_0000_0000_0000
    ensures |Digits(n)| <= 20
  {
    TenToTheTwenty();
    DigitsLength(n, 20);
  }

  lemma {:induction false} DigitsLength(n: nat, w: nat)
    requires 0 < w && n < Pow(10, w)
    ensures |Digits(n)| <= w
  {
    if 10 <= n {
      assert Pow(10, w) == 10 * Pow(10, w - 1);
      DigitsLength(n / 10, w - 1);
    }
  }

  /** A digit of "%X" */
  function UpperHex(d: nat): (h: Byte)
    requires d < 16
    ensures IsHex(h) && HexDigit(h) == d
  {
    if d < 10 then ZERO + d else 0x37 + d
  }

  /** What jsonp_fprint_string prints for a byte. */
  function EscapeByte(b: Byte): (r: Text)
    ensures NulFree(r) && 1 <= |r| <= 6
  {
    if b == 0x08 then [BACKSLASH, LOWER_B]
    else if b == 0x09 then [BACKSLASH, LOWER_T]
    else if b == 0x0A then [BACKSLASH, LOWER_N]
    else if b == 0x0C then [BACKSLASH, LOWER_F]
    else if b == 0x0D then [BACKSLASH, LOWER_R]
    else if b <= 0x1F then [BACKSLASH, LOWER_U, ZERO, ZERO, UpperHex(b / 16), UpperHex(b % 16)]
    else if b == QUOTE || b == BACKSLASH then [BACKSLASH, b]
    else [b]
  }

  function EscapeBytes(t: Text): (r: Text)
    ensures NulFree(r)
  {
    if t == [] then [] else EscapeByte(t[0]) + EscapeBytes(t[1..])
  }

  /** jsonp_fprint_string */
  function PrintString(t: Text): Text {
    [QUOTE] + (EscapeBytes(t) + [QUOTE])
  }

  /** jsonp_fprint_scalar */
  function PrintScalar(v: JsonValue): Text
    requires NoDoubles(v) && !v.Array? && !v.Object?
  {
    match v
    case Null => KEYWORD_NULL
    case Boolean(b) => if b then KEYWORD_TRUE else KEYWORD_FALSE
    case Long(n) => Decimal(n)
    case String(t) => PrintString(t)
  }

  /** A key is cut to 127 bytes and printed with "%s", without any escaping. */
  function RawKey(key: Text): (r: Text)
    ensures NulFree(r) && |r| <= MAX_KEY
    ensures |r| <= |key| && r == key[..|r|]
  {
    CString(key[..Min(|key|, MAX_KEY)])
  }

  /** "\"%s\" : " */
  function PrintKey(key: Text): Text {
    [QUOTE] + (RawKey(key) + [QUOTE, SPACE, COLON, SPACE])
  }

  // ---------------------------------------------------------------------------------------------
  //  Arrays and objects
  // ---------------------------------------------------------------------------------------------

  function Print(v: JsonValue, l: Layout, level: nat): Text
    requires NoDoubles(v)
  {
    match v
    case Array(es) =>
      if es == [] then [LEFT_BRACKET, RIGHT_BRACKET]
      else
        [LEFT_BRACKET] + (Gap(l, level + 1) + (Print(es[0], l, level + 1)
                          + PrintMore(es[1..], l, level + 1, Gap(l, level) + [RIGHT_BRACKET])))
    case Object(es) =>
      if es == [] then [LEFT_BRACE] + (EmptyGap(l) + [RIGHT_BRACE])
      else
        [LEFT_BRACE] + (Gap(l, level + 1) + (PrintEntry(es[0], l, level + 1)
                        + PrintOthers(es[1..], l, level + 1, Gap(l, level) + [RIGHT_BRACE])))
    case _ => PrintScalar(v)
  }

  /** The elements after the first one, and what follows them */
  function PrintMore(es: seq<JsonValue>, l: Layout, level: nat, end: Text): Text
    requires forall i :: 0 <= i < |es| ==> NoDoubles(es[i])
  {
    if es == [] then end
    else [COMMA] + (Gap(l, level) + (Print(es[0], l, level) + PrintMore(es[1..], l, level, end)))
  }

  function PrintEntry(e: Entry, l: Layout, level: nat): Text
    requires NoDoubles(e.value)
  {
    PrintKey(e.key) + Print(e.value, l, level)
  }

  /** The entries after the first one, and what follows them */
  function PrintOthers(es: seq<Entry>, l: Layout, level: nat, end: Text): Text
    requires forall i :: 0 <= i < |es| ==> NoDoubles(es[i].value)
  {
    if es == [] then end
    else [COMMA] + (Gap(l, level) + (PrintEntry(es[0], l, level) + PrintOthers(es[1..], l, level, end)))
  }

  /** How many levels of indentation the multi-line layout uses for a value; empty ones stay on their line. */
  function Levels(v: JsonValue): nat {
    match v
    case Array(es) => if es == [] then 0 else 1 + ElementsLevels(es)
    case Object(es) => if es == [] then 0 else 1 + EntriesLevels(es)
    case _ => 0
  }

  function ElementsLevels(es: seq<JsonValue>): nat {
    if es == [] then 0 else Max(Levels(es[0]), ElementsLevels(es[1..]))
  }

  function EntriesLevels(es: seq<Entry>): nat {
    if es == [] then 0 else Max(Levels(es[0].value), EntriesLevels(es[1..]))
  }
}
