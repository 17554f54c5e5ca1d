/**
 * The numeric and string helpers of the interpreter: growing a C string by
 * one character, parsing `12H`-style hexadecimal literals through `strtoul`,
 * and the three-way comparison used to sort and search addresses.
 */
module Utils {
  import opened Common
  import opened CType

  // ---------------------------------------------------------------------
  // C strings on the heap
  // ---------------------------------------------------------------------

  /**
   * A heap string of `size` characters: either still NULL (nothing read yet,
   * modelled as the empty buffer) or `size` characters followed by a NUL.
   */
  predicate Terminated(buf: seq<char>, size: nat) {
    (size == 0 && buf == []) || (|buf| == size + 1 && buf[size] == '\0')
  }

  /** `strlen`: the position of the first NUL. */
  function StrLen(buf: seq<char>): (n: nat)
    requires '\0' in buf
    ensures n < |buf| && buf[n] == '\0' && NoNul(buf[..n])
  {
    if buf[0] == '\0' then 0
    else
      assert '\0' in buf[1..] by {
        var k :| 0 <= k < |buf| && buf[k] == '\0';
        assert buf[1..][k - 1] == '\0';
      }
      1 + StrLen(buf[1..])
  }

  /**
   * `addCharToString`: reallocates the buffer to `size + 2`, stores `c` at
   * position `size` and the terminator after it, and returns the new size.
   * Allocation failure is not modelled.
   */
  function AddCharToString(c: char, buf: seq<char>, size: nat): (r: (seq<char>, nat))
    requires Terminated(buf, size)
    ensures r.1 == size + 1
    ensures Terminated(r.0, r.1)
    ensures r.0[..size] == buf[..size] && r.0[size] == c
  {
    (buf[..size] + [c, '\0'], size + 1)
  }

  /**
   * Appending a non-NUL character to a string without NULs grows `strlen` by
   * one: the result is again a well-formed C string of the returned size.
   */
  lemma AddCharToStringLength(c: char, buf: seq<char>, size: nat)
    requires Terminated(buf, size) && NoNul(buf[..size]) && c != '\0'
    ensures '\0' in AddCharToString(c, buf, size).0
    ensures StrLen(AddCharToString(c, buf, size).0) == AddCharToString(c, buf, size).1
  {
    var (nb, ns) := AddCharToString(c, buf, size);
    assert nb[ns] == '\0';
    assert NoNul(nb[..ns]) by {
      assert nb[..ns] == buf[..size] + [c];
    }
    StrLenOfTerminated(nb, ns);
  }

  lemma {:induction false} StrLenOfTerminated(buf: seq<char>, n: nat)
    requires n < |buf| && buf[n] == '\0' && NoNul(buf[..n])
    ensures '\0' in buf
    ensures StrLen(buf) == n
    decreases n
  {
    assert buf[n] == '\0';
    if n > 0 {
      assert buf[0] == buf[..n][0];
      assert buf[1..][..n - 1] == buf[..n][1..];
      StrLenOfTerminated(buf[1..], n - 1);
    }
  }

  // ---------------------------------------------------------------------
  // Hexadecimal text
  // ---------------------------------------------------------------------

  predicate AllHexDigits(s: seq<char>) {
    forall i :: 0 <= i < |s| ==> IsXDigit(s[i])
  }

  /** The value of a run of hexadecimal digits, most significant first. */
  function HexValue(ds: seq<char>): nat
    requires AllHexDigits(ds)
  {
    if |ds| == 0 then 0 else HexValue(ds[..|ds| - 1]) * 16 + HexDigitValue(ds[|ds| - 1])
  }

  /** The upper-case digits of `v` without leading zeros ("0" for zero). */
  function HexDigits(v: nat): (ds: seq<char>)
    ensures 0 < |ds| && AllHexDigits(ds)
    decreases v
  {
    if v < 16 then [HexDigit(v)] else HexDigits(v / 16) + [HexDigit(v % 16)]
  }

  /** The assembler's spelling of a number: its hexadecimal digits and an `H`. */
  function HexLiteral(v: nat): string {
    HexDigits(v) + "H"
  }

  lemma {:induction false} HexDigitsValue(v: nat)
    ensures HexValue(HexDigits(v)) == v
    decreases v
  {
    var ds := HexDigits(v);
    if v >= 16 {
      HexDigitsValue(v / 16);
      assert ds[..|ds| - 1] == HexDigits(v / 16);
    }
  }

  /** Sixteen bits need at most four digits. */
  lemma {:induction false} HexDigitsLength(v: nat)
    ensures v < 0x10 ==> |HexDigits(v)| <= 1
    ensures v < 0x100 ==> |HexDigits(v)| <= 2
    ensures v < 0x1000 ==> |HexDigits(v)| <= 3
    ensures v < 0x1_0000 ==> |HexDigits(v)| <= 4
    decreases v
  {
    if v >= 16 {
      HexDigitsLength(v / 16);
    }
  }

  // ---------------------------------------------------------------------
  // strtoul(text, &end, 16)
  // ---------------------------------------------------------------------

  /** `ULONG_MAX` on an LP64 platform: what `strtoul` returns on overflow. */
  const ULongMax: nat := 0xFFFF_FFFF_FFFF_FFFF

  /** What `strtoul` produced and how many characters it consumed (0: none). */
  datatype Conversion = Conversion(value: nat, end: nat)

  function SkipSpaces(s: seq<char>, i: nat): (j: nat)
    requires i <= |s|
    ensures i <= j <= |s|
    ensures forall k :: i <= k < j ==> IsSpace(s[k])
    ensures j < |s| ==> !IsSpace(s[j])
    decreases |s| - i
  {
    if i < |s| && IsSpace(s[i]) then SkipSpaces(s, i + 1) else i
  }

  /** The length of the run of hexadecimal digits starting at `i`. */
  function HexRun(s: seq<char>, i: nat): (n: nat)
    requires i <= |s|
    ensures i + n <= |s|
    ensures AllHexDigits(s[i..i + n])
    ensures i + n < |s| ==> !IsXDigit(s[i + n])
    decreases |s| - i
  {
    if i < |s| && IsXDigit(s[i]) then
      var n := 1 + HexRun(s, i + 1);
      assert s[i..i + n] == [s[i]] + s[i + 1..i + n];
      n
    else 0
  }

  /**
   * `strtoul` in base 16: optional leading white space, an optional sign, an
   * optional `0x`/`0X` prefix (taken only when a hex digit follows), then the
   * longest run of hex digits. Overflow saturates at `ULONG_MAX`; a minus sign
   * negates modulo 2^64.
   */
  function StrToUL16(s: seq<char>): (r: Conversion)
    ensures r.end <= |s|
    ensures r.value <= ULongMax
  {
    var i0 := SkipSpaces(s, 0);
    var signed := i0 < |s| && (s[i0] == '+' || s[i0] == '-');
    var negative := i0 < |s| && s[i0] == '-';
    var i1 := if signed then i0 + 1 else i0;
    var i2 :=
      if i1 + 2 < |s| && s[i1] == '0' && (s[i1 + 1] == 'x' || s[i1 + 1] == 'X') && IsXDigit(s[i1 + 2])
      then i1 + 2 else i1;
    var n := HexRun(s, i2);
    if n == 0 then Conversion(0, 0)
    else
      var v := HexValue(s[i2..i2 + n]);
      var value :=
        if v > ULongMax then ULongMax
        else if negative && v != 0 then ULongMax + 1 - v
        else v;
      Conversion(value, i2 + n)
  }

  /** On a plain run of hex digits `strtoul` consumes everything. */
  lemma StrToUL16Digits(ds: seq<char>)
    requires 0 < |ds| && AllHexDigits(ds)
    ensures StrToUL16(ds).end == |ds|
    ensures HexValue(ds) <= ULongMax ==> StrToUL16(ds).value == HexValue(ds)
    ensures HexValue(ds) > ULongMax ==> StrToUL16(ds).value == ULongMax
  {
    assert IsXDigit(ds[0]);
    assert SkipSpaces(ds, 0) == 0;
    assert !(ds[0] == '+' || ds[0] == '-');
    assert |ds| > 1 ==> IsXDigit(ds[1]) && ds[1] != 'x' && ds[1] != 'X';
    var n := HexRun(ds, 0);
    assert n == |ds|;
    assert ds[0..n] == ds;
  }

  // ---------------------------------------------------------------------
  // str_to_hex1 / str_to_hex2
  // ---------------------------------------------------------------------

  /** Size of the local buffer the digits are copied into. */
  const HexBuffer: nat := 32

  /**
   * The checks both parsers share: the text is present, at least two
   * characters long, ends in `H`, fits the buffer, and `strtoul` consumes
   * every character before the `H`. On success, the converted value.
   */
  function ParseHexText(text: Option<string>): (r: Result<nat>)
    requires text.Some? ==> NoNul(text.value)
    ensures text.None? <==> r == Err(NullArgument)
    ensures r.Err? ==> r.code == NullArgument || r.code == InvalidArgument
    ensures text.Some? && (|text.value| < 2 || text.value[|text.value| - 1] != 'H') ==> r == Err(InvalidArgument)
    ensures text.Some? && |text.value| >= HexBuffer ==> r == Err(InvalidArgument)
    ensures r.Ok? ==>
      var t := text.value;
      && 2 <= |t| < HexBuffer && t[|t| - 1] == 'H'
      && StrToUL16(t[..|t| - 1]).end == |t| - 1
      && r.value == StrToUL16(t[..|t| - 1]).value
  {
    match text
    case None => Err(NullArgument)
    case Some(t) =>
      if |t| < 2 || t[|t| - 1] != 'H' then Err(InvalidArgument)
      else if |t| >= HexBuffer then Err(InvalidArgument)
      else
        var conv := StrToUL16(t[..|t| - 1]);
        if conv.end == 0 || conv.end != |t| - 1 then Err(InvalidArgument)
        else Ok(conv.value)
  }

  /**
   * `str_to_hex1`: a converted value above `MAX_INT_TO_HEX` is rejected with
   * `EXIT_ILLEGAL_HEX`; otherwise the result is truncated to 8 bits.
   */
  function StrToHex1(text: Option<string>, maxIntToHex: nat): (r: Result<Byte>)
    requires text.Some? ==> NoNul(text.value)
    ensures ParseHexText(text).Err? ==> r == Err(ParseHexText(text).code)
    ensures ParseHexText(text).Ok? && ParseHexText(text).value > maxIntToHex ==> r == Err(IllegalHex)
    ensures r.Ok? <==> ParseHexText(text).Ok? && ParseHexText(text).value <= maxIntToHex
    ensures r.Ok? ==> r.value == ParseHexText(text).value % 0x100
  {
    var v :- ParseHexText(text);
    if v > maxIntToHex then Err(IllegalHex) else Ok(v % 0x100)
  }

  /**
   * `str_to_hex2`: a converted value above 0xFFFF is rejected with
   * `EXIT_ILLEGAL_HEX`; otherwise it is returned exactly.
   */
  function StrToHex2(text: Option<string>): (r: Result<Word>)
    requires text.Some? ==> NoNul(text.value)
    ensures ParseHexText(text).Err? ==> r == Err(ParseHexText(text).code)
    ensures ParseHexText(text).Ok? && ParseHexText(text).value > 0xFFFF ==> r == Err(IllegalHex)
    ensures r.Ok? <==> ParseHexText(text).Ok? && ParseHexText(text).value <= 0xFFFF
    ensures r.Ok? ==> r.value == ParseHexText(text).value
  {
    var v :- ParseHexText(text);
    if v > 0xFFFF then Err(IllegalHex) else Ok(v)
  }

  /**
   * On the texts the tokenizer classifies as hexadecimal (hex digits then
   * `H`), `str_to_hex2` is decided by length and value alone.
   */
  lemma StrToHex2OfLiteral(ds: seq<char>)
    requires 0 < |ds| && AllHexDigits(ds)
    ensures NoNul(ds + "H")
    ensures StrToHex2(Some(ds + "H")) ==
      if |ds| + 1 >= HexBuffer then Err(InvalidArgument)
      else if HexValue(ds) > 0xFFFF then Err(IllegalHex)
      else Ok(HexValue(ds))
  {
    var t := ds + "H";
    assert NoNul(t) by {
      forall i | 0 <= i < |t| ensures t[i] != '\0' {
        if i < |ds| { assert IsXDigit(ds[i]); }
      }
    }
    assert t[..|t| - 1] == ds;
    StrToUL16Digits(ds);
  }

  /** The same for `str_to_hex1`: the value is kept modulo 256. */
  lemma StrToHex1OfLiteral(ds: seq<char>, maxIntToHex: nat)
    requires 0 < |ds| && AllHexDigits(ds)
    ensures NoNul(ds + "H")
    ensures StrToHex1(Some(ds + "H"), maxIntToHex) ==
      if |ds| + 1 >= HexBuffer then Err(InvalidArgument)
      else if StrToUL16(ds).value > maxIntToHex then Err(IllegalHex)
      else Ok(StrToUL16(ds).value % 0x100)
  {
    var t := ds + "H";
    StrToHex2OfLiteral(ds);
    assert t[..|t| - 1] == ds;
    StrToUL16Digits(ds);
  }

  /** Writing a 16-bit value as a literal and parsing it back gives the value. */
  lemma {:induction false} StrToHex2RoundTrip(v: Word)
    ensures NoNul(HexLiteral(v))
    ensures StrToHex2(Some(HexLiteral(v))) == Ok(v)
  {
    HexDigitsValue(v);
    HexDigitsLength(v);
    StrToHex2OfLiteral(HexDigits(v));
  }

  /** The same for one byte, provided `MAX_INT_TO_HEX` admits it. */
  lemma {:induction false} StrToHex1RoundTrip(b: Byte, maxIntToHex: nat)
    requires b <= maxIntToHex
    ensures NoNul(HexLiteral(b))
    ensures StrToHex1(Some(HexLiteral(b)), maxIntToHex) == Ok(b)
  {
    HexDigitsValue(b);
    HexDigitsLength(b);
    StrToUL16Digits(HexDigits(b));
    StrToHex1OfLiteral(HexDigits(b), maxIntToHex);
  }

  // ---------------------------------------------------------------------
  // comp_hex2
  // ---------------------------------------------------------------------

  /** `comp_hex2`: 1, 0 or -1 as `a` is above, equal to or below `b`. */
  function CompHex2(a: Word, b: Word): (r: int)
    ensures r == 1 <==> a > b
    ensures r == 0 <==> a == b
    ensures r == -1 <==> a < b
  {
    (if a > b then 1 else 0) - (if a < b then 1 else 0)
  }

  /** Swapping the arguments flips the sign. */
  lemma CompHex2Antisymmetric(a: Word, b: Word)
    ensures CompHex2(b, a) == -CompHex2(a, b)
  {
  }
}
