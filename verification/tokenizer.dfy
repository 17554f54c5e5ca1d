/**
 * The tokenizer: splits the source text into words, commas and colons,
 * dropping comments, blanks and unknown characters, and classifies each word.
 */
module Tokenizer {
  import opened Common
  import opened CType
  import opened Utils
  import opened Instructions

  datatype TokenType =
    | Unknown | Hexadecimal | Instruction | Identifier | Register
    | Comma | Space | Colon | Semicolon | EOF

  datatype Token = Token(kind: TokenType, text: string)

  /** `COMMENT_CHAR`. */
  const CommentChar: char := ';'

  /** The character `(char)EOF` compares equal to: the byte 0xFF read as a signed `char`. */
  const EofChar: char := 'ÿ'

  // ---------------------------------------------------------------------
  // Counting characters
  // ---------------------------------------------------------------------

  /** How many characters of `s` satisfy `p`. */
  function Count(s: string, p: char -> bool): (n: nat)
    ensures n <= |s|
  {
    if |s| == 0 then 0 else Count(s[..|s| - 1], p) + (if p(s[|s| - 1]) then 1 else 0)
  }

  /** All characters but the one at `k` satisfy `p`, and that one does not. */
  predicate OnlyMiss(s: string, p: char -> bool, k: int) {
    0 <= k < |s| && !p(s[k]) && forall i :: 0 <= i < |s| && i != k ==> p(s[i])
  }

  lemma {:induction false} CountAll(s: string, p: char -> bool)
    ensures Count(s, p) == |s| <==> forall i :: 0 <= i < |s| ==> p(s[i])
  {
    if |s| > 0 {
      var pre := s[..|s| - 1];
      CountAll(pre, p);
      assert forall i :: 0 <= i < |pre| ==> pre[i] == s[i];
    }
  }

  lemma {:induction false} CountNone(s: string, p: char -> bool)
    requires forall i :: 0 <= i < |s| ==> !p(s[i])
    ensures Count(s, p) == 0
  {
    if |s| > 0 {
      var pre := s[..|s| - 1];
      assert forall i :: 0 <= i < |pre| ==> pre[i] == s[i];
      CountNone(pre, p);
    }
  }

  /** Exactly `|s| - 1` characters satisfy `p` when there is a single miss. */
  lemma {:induction false} CountAllButOne(s: string, p: char -> bool)
    ensures Count(s, p) == |s| - 1 <==> exists k :: OnlyMiss(s, p, k)
  {
    if |s| > 0 {
      var last := |s| - 1;
      var pre := s[..last];
      assert forall i :: 0 <= i < |pre| ==> pre[i] == s[i];
      if p(s[last]) {
        CountAllButOne(pre, p);
        if Count(s, p) == |s| - 1 {
          var k :| OnlyMiss(pre, p, k);
          assert OnlyMiss(s, p, k);
        }
        if k :| OnlyMiss(s, p, k) {
          assert OnlyMiss(pre, p, k);
        }
      } else {
        CountAll(pre, p);
        if Count(s, p) == |s| - 1 {
          assert OnlyMiss(s, p, last);
        }
        if k :| OnlyMiss(s, p, k) {
          assert k == last;
        }
      }
    }
  }

  /** When only position `k` can satisfy `p`, the count is 1 or 0 according to it. */
  lemma {:induction false} CountSingle(s: string, p: char -> bool, k: int)
    requires 0 <= k < |s|
    requires forall i :: 0 <= i < |s| && i != k ==> !p(s[i])
    ensures Count(s, p) == if p(s[k]) then 1 else 0
  {
    var last := |s| - 1;
    var pre := s[..last];
    assert forall i :: 0 <= i < |pre| ==> pre[i] == s[i];
    if k == last {
      CountNone(pre, p);
    } else {
      CountSingle(pre, p, k);
    }
  }

  /** Two disjoint classes together count every character exactly when they cover `s`. */
  lemma {:induction false} CountCover(s: string, p: char -> bool, q: char -> bool)
    requires forall c :: !(p(c) && q(c))
    ensures Count(s, p) + Count(s, q) <= |s|
    ensures Count(s, p) + Count(s, q) == |s| <==> forall i :: 0 <= i < |s| ==> p(s[i]) || q(s[i])
  {
    if |s| > 0 {
      var pre := s[..|s| - 1];
      assert forall i :: 0 <= i < |pre| ==> pre[i] == s[i];
      CountCover(pre, p, q);
    }
  }

  // ---------------------------------------------------------------------
  // Classifying a word
  // ---------------------------------------------------------------------

  /** `validCharForAlpha`: a letter or an underscore. */
  predicate ValidCharForAlpha(c: char) {
    IsAlpha(c) || c == '_'
  }

  predicate IsDot(c: char) {
    c == '.'
  }

  /** The one-character texts with a type of their own. */
  function SingleCharType(c: char): Option<TokenType> {
    if c in "ABC" then Some(Register)
    else if c in "\n\r\t " then Some(Space)
    else if c == CommentChar then Some(Semicolon)
    else if c == ':' then Some(Colon)
    else if c == EofChar then Some(EOF)
    else None
  }

  predicate AllDigits(s: string) {
    forall i :: 0 <= i < |s| ==> IsDigit(s[i])
  }

  /** Digits with exactly one decimal point among them. */
  predicate PointedDecimal(s: string) {
    exists k :: 0 <= k < |s| && s[k] == '.' && forall i :: 0 <= i < |s| && i != k ==> IsDigit(s[i])
  }

  /** Hexadecimal digits followed by a final `H`. */
  predicate HexShape(s: string) {
    0 < |s| && s[|s| - 1] == 'H' && forall i :: 0 <= i < |s| - 1 ==> IsXDigit(s[i])
  }

  /** Letters, digits and underscores, not starting with a digit. */
  predicate WordShape(s: string) {
    0 < |s| && !IsDigit(s[0]) && forall i :: 0 <= i < |s| ==> IsDigit(s[i]) || ValidCharForAlpha(s[i])
  }

  /** `getTypeOfToken`, counting characters as the C function does. */
  function GetTypeOfToken(text: string): Result<TokenType> {
    var len := |text|;
    if len == 0 then Ok(Unknown)
    else if len == 1 && SingleCharType(text[0]).Some? then Ok(SingleCharType(text[0]).value)
    else
      var digits := Count(text, IsDigit);
      var hex := Count(text, IsXDigit);
      var alpha := Count(text, ValidCharForAlpha);
      var dots := Count(text, IsDot);
      if digits == len || (digits == len - 1 && dots == 1) then Err(InvalidArgument)
      else if hex == len - 1 && text[len - 1] == 'H' then Ok(Hexadecimal)
      else if !IsDigit(text[0]) && digits + alpha == len then
        Ok(if IsInstruction(text) then Instruction else Identifier)
      else Ok(Unknown)
  }

  /**
   * What `getTypeOfToken` decides, by the shape of the text: decimal numbers
   * are rejected (only hexadecimal is allowed), hexadecimal digits ending in
   * `H` are hexadecimal, words are instructions when they spell a mnemonic and
   * identifiers otherwise, anything else is unknown.
   */
  lemma TypeOfTokenShapes(text: string)
    ensures |text| == 0 ==> GetTypeOfToken(text) == Ok(Unknown)
    ensures |text| == 1 && SingleCharType(text[0]).Some? ==> GetTypeOfToken(text) == Ok(SingleCharType(text[0]).value)
    ensures |text| > 0 && !(|text| == 1 && SingleCharType(text[0]).Some?) ==>
      var r := GetTypeOfToken(text);
      && (AllDigits(text) || PointedDecimal(text) <==> r == Err(InvalidArgument))
      && (!AllDigits(text) && !PointedDecimal(text) && HexShape(text) ==> r == Ok(Hexadecimal))
      && (!AllDigits(text) && !PointedDecimal(text) && !HexShape(text) && WordShape(text) ==>
            r == Ok(if IsInstruction(text) then Instruction else Identifier))
      && (!AllDigits(text) && !PointedDecimal(text) && !HexShape(text) && !WordShape(text) ==> r == Ok(Unknown))
  {
    if |text| > 0 {
      ClassCounts(text);
    }
  }

  /** The character counts of `getTypeOfToken` decide exactly the shapes above. */
  lemma ClassCounts(text: string)
    requires 0 < |text|
    ensures Count(text, IsDigit) == |text| <==> AllDigits(text)
    ensures Count(text, IsDigit) == |text| - 1 && Count(text, IsDot) == 1 <==> PointedDecimal(text)
    ensures Count(text, IsXDigit) == |text| - 1 && text[|text| - 1] == 'H' <==> HexShape(text)
    ensures !IsDigit(text[0]) && Count(text, IsDigit) + Count(text, ValidCharForAlpha) == |text| <==> WordShape(text)
  {
    CountAll(text, IsDigit);
    DecimalCounts(text);
    HexCounts(text);
    CountCover(text, IsDigit, ValidCharForAlpha);
  }

  /** Digits but one, and one dot, is a decimal number with a point. */
  lemma DecimalCounts(text: string)
    requires 0 < |text|
    ensures Count(text, IsDigit) == |text| - 1 && Count(text, IsDot) == 1 <==> PointedDecimal(text)
  {
    CountAllButOne(text, IsDigit);
    if Count(text, IsDigit) == |text| - 1 && Count(text, IsDot) == 1 {
      var k :| OnlyMiss(text, IsDigit, k);
      CountSingle(text, IsDot, k);
    }
    if PointedDecimal(text) {
      var k :| 0 <= k < |text| && text[k] == '.' && forall i :: 0 <= i < |text| && i != k ==> IsDigit(text[i]);
      assert OnlyMiss(text, IsDigit, k);
      CountSingle(text, IsDot, k);
    }
  }

  /** Hexadecimal digits but one, the last being `H`, is the hexadecimal shape. */
  lemma HexCounts(text: string)
    requires 0 < |text|
    ensures Count(text, IsXDigit) == |text| - 1 && text[|text| - 1] == 'H' <==> HexShape(text)
  {
    CountAllButOne(text, IsXDigit);
    var last := |text| - 1;
    if Count(text, IsXDigit) == last && text[last] == 'H' {
      var k :| OnlyMiss(text, IsXDigit, k);
      assert k == last;
    }
    if HexShape(text) {
      assert OnlyMiss(text, IsXDigit, last);
    }
  }

  /** A run of letters and digits is never classified as punctuation or end of input. */
  lemma RunType(text: string)
    requires 0 < |text| && forall i :: 0 <= i < |text| ==> IsAlnum(text[i])
    ensures GetTypeOfToken(text).Ok? ==> GetTypeOfToken(text).value in {Unknown, Hexadecimal, Instruction, Identifier, Register}
    ensures GetTypeOfToken(text).Err? ==> GetTypeOfToken(text).code == InvalidArgument
  {
    TypeOfTokenShapes(text);
  }

  // ---------------------------------------------------------------------
  // Reading tokens
  // ---------------------------------------------------------------------

  predicate IsBlank(c: char) {
    c == ' ' || c == '\n' || c == '\r' || c == '\t'
  }

  predicate AllAlnum(s: string) {
    forall i :: 0 <= i < |s| ==> IsAlnum(s[i])
  }

  /** What a token read from the text can look like. */
  predicate WellFormed(t: Token) {
    || (t.kind == EOF && t.text == "EOF")
    || (t.kind == Comma && t.text == ",")
    || (t.kind == Colon && t.text == ":")
    || (0 < |t.text| && AllAlnum(t.text) && GetTypeOfToken(t.text) == Ok(t.kind) &&
        t.kind in {Unknown, Hexadecimal, Instruction, Identifier, Register})
  }

  /** The word read so far becomes a token, or the classification exits the program. */
  function Emit(buf: seq<char>, size: nat, next: nat): (r: Result<(Token, nat)>)
    requires Terminated(buf, size) && 0 < size && AllAlnum(buf[..size])
    ensures r.Ok? ==> WellFormed(r.value.0) && r.value.0.text == buf[..size] && r.value.1 == next
    ensures r.Err? ==> r.code == InvalidArgument
  {
    RunType(buf[..size]);
    var kind :- GetTypeOfToken(buf[..size]);
    Ok((Token(kind, buf[..size]), next))
  }

  /**
   * The loop of `getNextToken` from position `pos`, with the word read so
   * far in `buf` (`size == 0` while it is still NULL) and the comment flag.
   * Returns the token and the position where reading resumes.
   */
  function Scan(s: string, pos: nat, buf: seq<char>, size: nat, comment: bool): (r: Result<(Token, nat)>)
    requires pos <= |s| && NoNul(s)
    requires Terminated(buf, size) && AllAlnum(buf[..size])
    ensures r.Ok? ==> WellFormed(r.value.0) && pos <= r.value.1 <= |s|
    ensures r.Ok? && size == 0 && r.value.0.kind != EOF ==> pos < r.value.1
    ensures r.Ok? && 0 < size ==> r.value.0.kind != EOF
    ensures r.Err? ==> r.code == InvalidArgument
    decreases |s| - pos
  {
    hide *;
    if pos == |s| || s[pos] == EofChar then
      var next := if pos == |s| then pos else pos + 1;
      if size == 0 then Ok((Token(EOF, "EOF"), next)) else Emit(buf, size, next)
    else
      var c := s[pos];
      if c == CommentChar then Scan(s, pos + 1, buf, size, true)
      else if comment then
        if c == '\n' && 0 < size then Emit(buf, size, pos + 1)
        else Scan(s, pos + 1, buf, size, c != '\n')
      else if IsBlank(c) then
        if size == 0 then Scan(s, pos + 1, buf, size, false) else Emit(buf, size, pos + 1)
      else if c == ',' || c == ':' then
        if 0 < size then Emit(buf, size, pos)  // the punctuation is pushed back
        else Ok((Token(if c == ',' then Comma else Colon, [c]), pos + 1))
      else if IsAlpha(c) || IsDigit(c) then
        var (nb, ns) := AddCharToString(c, buf, size);
        assert nb[..ns] == buf[..size] + [c];
        Scan(s, pos + 1, nb, ns, false)
      else Scan(s, pos + 1, buf, size, false)  // an invalid character is skipped
  }

  /** `getNextToken`: the next token and where reading resumes. */
  function GetNextToken(s: string, pos: nat): (r: Result<(Token, nat)>)
    requires pos <= |s| && NoNul(s)
    ensures r.Ok? ==> WellFormed(r.value.0) && pos <= r.value.1 <= |s|
    ensures r.Ok? && r.value.0.kind != EOF ==> pos < r.value.1
    ensures r.Err? ==> r.code == InvalidArgument
    ensures pos == |s| ==> r == Ok((Token(EOF, "EOF"), pos))
    ensures pos < |s| && s[pos] == EofChar ==> r == Ok((Token(EOF, "EOF"), pos + 1))
    ensures pos < |s| && (s[pos] == ',' || s[pos] == ':') ==>
      r == Ok((Token(if s[pos] == ',' then Comma else Colon, [s[pos]]), pos + 1))
  {
    Scan(s, pos, [], 0, false)
  }

  function TokenizeFrom(s: string, pos: nat): (r: Result<seq<Token>>)
    requires pos <= |s| && NoNul(s)
    ensures r.Ok? ==> Tokens(r.value)
    ensures r.Err? ==> r.code == InvalidArgument
    decreases |s| - pos
  {
    var (t, next) :- GetNextToken(s, pos);
    WellFormedNoNul(t);
    if t.kind == EOF then Ok([t])
    else
      var rest :- TokenizeFrom(s, next);
      ConsTokens(t, rest);
      Ok([t] + rest)
  }

  /** A well-formed token's text holds no NUL. */
  lemma WellFormedNoNul(t: Token)
    requires WellFormed(t)
    ensures NoNul(t.text)
  {
  }

  /** A token other than EOF in front of a token stream gives a token stream. */
  lemma ConsTokens(t: Token, rest: seq<Token>)
    requires WellFormed(t) && NoNul(t.text) && t.kind != EOF && Tokens(rest)
    ensures Tokens([t] + rest)
  {
    var ts := [t] + rest;
    assert forall i :: 0 < i < |ts| ==> ts[i] == rest[i - 1];
  }

  /**
   * A token stream: well-formed tokens, ending with the one and only EOF;
   * no token text holds a NUL, so every text reads as a whole C string.
   */
  predicate Tokens(ts: seq<Token>) {
    && 0 < |ts|
    && ts[|ts| - 1].kind == EOF
    && (forall i :: 0 <= i < |ts| - 1 ==> ts[i].kind != EOF)
    && (forall i :: 0 <= i < |ts| ==> WellFormed(ts[i]))
    && (forall i :: 0 <= i < |ts| ==> NoNul(ts[i].text))
  }

  /** `tokenize`: the whole text as a token stream; a rejected number ends it with an error. */
  function Tokenize(s: string): (r: Result<seq<Token>>)
    requires NoNul(s)
    ensures r.Ok? ==> Tokens(r.value)
    ensures r.Err? ==> r.code == InvalidArgument
  {
    TokenizeFrom(s, 0)
  }

  // ---------------------------------------------------------------------
  // What the tokenizer ignores
  // ---------------------------------------------------------------------

  /** Inside a comment, everything up to and including the newline is skipped. */
  lemma {:induction false} CommentRest(s: string, pos: nat, nl: nat)
    requires NoNul(s) && pos <= nl < |s| && s[nl] == '\n'
    requires forall k :: pos <= k < nl ==> s[k] != '\n' && s[k] != EofChar
    ensures Scan(s, pos, [], 0, true) == Scan(s, nl + 1, [], 0, false)
    decreases nl - pos
  {
    if pos < nl {
      CommentRest(s, pos + 1, nl);
    }
  }

  /** A comment line before the next token does not change that token. */
  lemma CommentSkipped(s: string, pos: nat, nl: nat)
    requires NoNul(s) && pos < nl < |s| && s[pos] == CommentChar && s[nl] == '\n'
    requires forall k :: pos < k < nl ==> s[k] != '\n' && s[k] != EofChar
    ensures GetNextToken(s, pos) == GetNextToken(s, nl + 1)
  {
    CommentRest(s, pos + 1, nl);
  }

  /** Blanks before the next token do not change it. */
  lemma {:induction false} BlanksSkipped(s: string, pos: nat, end: nat)
    requires NoNul(s) && pos <= end <= |s|
    requires forall k :: pos <= k < end ==> IsBlank(s[k])
    ensures GetNextToken(s, pos) == GetNextToken(s, end)
    decreases end - pos
  {
    hide GetNextToken, Scan;
    if pos < end {
      BlankStep(s, pos);
      BlanksSkipped(s, pos + 1, end);
    }
  }

  /** One blank before the next token does not change it. */
  lemma BlankStep(s: string, pos: nat)
    requires NoNul(s) && pos < |s| && IsBlank(s[pos])
    ensures GetNextToken(s, pos) == GetNextToken(s, pos + 1)
  {
  }

  /** A letter or digit outside a comment is appended to the word being read. */
  lemma ScanStep(s: string, pos: nat, buf: seq<char>, size: nat)
    requires NoNul(s) && pos < |s| && IsAlnum(s[pos])
    requires Terminated(buf, size) && AllAlnum(buf[..size])
    ensures Terminated(buf[..size] + [s[pos], '\0'], size + 1)
    ensures AllAlnum((buf[..size] + [s[pos], '\0'])[..size + 1])
    ensures Scan(s, pos, buf, size, false) == Scan(s, pos + 1, buf[..size] + [s[pos], '\0'], size + 1, false)
  {
    var c := s[pos];
    assert c != EofChar && c != CommentChar && !IsBlank(c) && c != ',' && c != ':';
    assert (buf[..size] + [c, '\0'])[..size + 1] == buf[..size] + [c];
  }

  /** The word buffer `buf` of `size` letters with `s[pos..end]` appended, NUL-terminated again. */
  function Extended(buf: seq<char>, size: nat, s: string, pos: nat, end: nat): seq<char>
    requires size <= |buf| && pos <= end <= |s|
  {
    buf[..size] + s[pos..end] + ['\0']
  }

  /** The buffer after appending `s[pos..end]` to a word buffer is again a word buffer. */
  lemma RunBuffer(s: string, pos: nat, end: nat, buf: seq<char>, size: nat)
    requires pos <= end <= |s| && Terminated(buf, size) && AllAlnum(buf[..size])
    requires forall k :: pos <= k < end ==> IsAlnum(s[k])
    ensures size <= |buf|
    ensures Terminated(Extended(buf, size, s, pos, end), size + end - pos)
    ensures AllAlnum(Extended(buf, size, s, pos, end)[..size + end - pos])
  {
    var b := Extended(buf, size, s, pos, end);
    assert b[..size + end - pos] == buf[..size] + s[pos..end];
  }

  /** Appending one character and then the rest of the run is appending the run. */
  lemma RunShift(buf: seq<char>, size: nat, s: string, pos: nat, end: nat)
    requires size <= |buf| && pos < end <= |s|
    ensures Extended(buf[..size] + [s[pos], '\0'], size + 1, s, pos + 1, end) == Extended(buf, size, s, pos, end)
  {
    assert (buf[..size] + [s[pos], '\0'])[..size + 1] == buf[..size] + [s[pos]];
    assert [s[pos]] + s[pos + 1..end] == s[pos..end];
  }

  /** Appending an empty run to a word buffer leaves it as it was. */
  lemma EmptyRun(s: string, pos: nat, buf: seq<char>, size: nat)
    requires pos <= |s| && 0 < size && Terminated(buf, size)
    ensures Extended(buf, size, s, pos, pos) == buf
  {
    assert buf == buf[..size] + [buf[size]];
  }

  /** A run of letters and digits is read whole, up to the first character that ends it. */
  lemma {:induction false} ScanRun(s: string, pos: nat, end: nat, buf: seq<char>, size: nat)
    requires NoNul(s) && pos <= end <= |s| && 0 < size
    requires Terminated(buf, size) && AllAlnum(buf[..size])
    requires forall k :: pos <= k < end ==> IsAlnum(s[k])
    ensures size <= |buf|
    ensures Terminated(Extended(buf, size, s, pos, end), size + end - pos)
    ensures AllAlnum(Extended(buf, size, s, pos, end)[..size + end - pos])
    ensures Scan(s, pos, buf, size, false) == Scan(s, end, Extended(buf, size, s, pos, end), size + end - pos, false)
    decreases end - pos
  {
    hide *;
    RunBuffer(s, pos, end, buf, size);
    if pos < end {
      var nb := buf[..size] + [s[pos], '\0'];
      ScanStep(s, pos, buf, size);
      ScanRun(s, pos + 1, end, nb, size + 1);
      RunShift(buf, size, s, pos, end);
      assert size + 1 + end - (pos + 1) == size + end - pos;
    } else {
      EmptyRun(s, pos, buf, size);
    }
  }

  /** A word read from position `p` to `end`: every letter and digit goes into the buffer. */
  lemma ReadWord(s: string, p: nat, end: nat)
    requires NoNul(s) && p < end <= |s| && AllAlnum(s[p..end])
    ensures Terminated(s[p..end] + ['\0'], end - p) && AllAlnum((s[p..end] + ['\0'])[..end - p])
    ensures GetNextToken(s, p) == Scan(s, end, s[p..end] + ['\0'], end - p, false)
  {
    hide Scan, GetTypeOfToken;
    assert IsAlnum(s[p..end][0]);
    var b1 := [s[p], '\0'];
    ScanStep(s, p, [], 0);
    assert [][..0] + [s[p], '\0'] == b1;
    assert GetNextToken(s, p) == Scan(s, p + 1, b1, 1, false);
    assert forall k :: p + 1 <= k < end ==> IsAlnum(s[k]) by {
      forall k | p + 1 <= k < end ensures IsAlnum(s[k]) { assert s[k] == s[p..end][k - p]; }
    }
    ScanRun(s, p + 1, end, b1, 1);
    assert Extended(b1, 1, s, p + 1, end) == s[p..end] + ['\0'];
    assert 1 + end - (p + 1) == end - p;
  }

  /**
   * The token a finished word becomes, independently of the scanning loop:
   * the word with its class, resuming at `next`, or the classification error.
   */
  function WordToken(w: string, next: nat): Result<(Token, nat)> {
    var kind :- GetTypeOfToken(w);
    Ok((Token(kind, w), next))
  }

  /**
   * A word ends at the end of the text or at 0xFF, where reading resumes
   * after it; at a blank, which is consumed; or at a comma or colon, which
   * is pushed back and read next.
   */
  lemma WordEnds(s: string, p: nat, end: nat)
    requires NoNul(s) && p < end <= |s| && AllAlnum(s[p..end])
    ensures end == |s| ==> GetNextToken(s, p) == WordToken(s[p..end], end)
    ensures end < |s| && (s[end] == EofChar || IsBlank(s[end])) ==> GetNextToken(s, p) == WordToken(s[p..end], end + 1)
    ensures end < |s| && (s[end] == ',' || s[end] == ':') ==> GetNextToken(s, p) == WordToken(s[p..end], end)
  {
    ReadWord(s, p, end);
    var buf := s[p..end] + ['\0'];
    assert buf[..end - p] == s[p..end];
  }

  /** A comment that starts right after a word ends the word at its newline, resuming after it. */
  lemma CommentEndsWord(s: string, p: nat, end: nat, nl: nat)
    requires NoNul(s) && p < end < nl < |s| && AllAlnum(s[p..end])
    requires s[end] == CommentChar && s[nl] == '\n'
    requires forall k :: end < k < nl ==> s[k] != '\n' && s[k] != EofChar
    ensures GetNextToken(s, p) == WordToken(s[p..end], nl + 1)
  {
    ReadWord(s, p, end);
    var buf := s[p..end] + ['\0'];
    assert buf[..end - p] == s[p..end];
    CommentWordRest(s, end + 1, nl, buf, end - p);
  }

  /** Inside a comment with a word pending, the newline ends the word. */
  lemma {:induction false} CommentWordRest(s: string, pos: nat, nl: nat, buf: seq<char>, size: nat)
    requires NoNul(s) && pos <= nl < |s| && s[nl] == '\n'
    requires Terminated(buf, size) && 0 < size && AllAlnum(buf[..size])
    requires forall k :: pos <= k < nl ==> s[k] != '\n' && s[k] != EofChar
    ensures Scan(s, pos, buf, size, true) == WordToken(buf[..size], nl + 1)
    decreases nl - pos
  {
    if pos < nl {
      CommentWordRest(s, pos + 1, nl, buf, size);
    }
  }

  /**
   * A comment that runs to the end of the text, with no newline or 0xFF,
   * contributes nothing: the pending word is the token, or EOF when there is none.
   */
  lemma {:induction false} CommentToEnd(s: string, pos: nat, buf: seq<char>, size: nat)
    requires NoNul(s) && pos <= |s| && Terminated(buf, size) && AllAlnum(buf[..size])
    requires forall k :: pos <= k < |s| ==> s[k] != '\n' && s[k] != EofChar
    ensures 0 < size ==> Scan(s, pos, buf, size, true) == WordToken(buf[..size], |s|)
    ensures size == 0 ==> Scan(s, pos, buf, size, true) == Ok((Token(EOF, "EOF"), |s|))
    decreases |s| - pos
  {
    if pos < |s| {
      CommentToEnd(s, pos + 1, buf, size);
    }
  }

  /**
   * A character that is no letter, digit, blank, comma, colon, comment
   * start or 0xFF is dropped: the word being read carries on past it.
   */
  lemma InvalidSkipped(s: string, p: nat, buf: seq<char>, size: nat)
    requires NoNul(s) && p < |s| && Terminated(buf, size) && AllAlnum(buf[..size])
    requires !IsAlnum(s[p]) && !IsBlank(s[p]) && s[p] != ',' && s[p] != ':' && s[p] != CommentChar && s[p] != EofChar
    ensures Scan(s, p, buf, size, false) == Scan(s, p + 1, buf, size, false)
  {
  }

  /** A word followed by a comma or colon is two tokens: the word, then the punctuation. */
  lemma PunctuationPushedBack(s: string, p: nat, end: nat)
    requires NoNul(s) && p < end < |s| && AllAlnum(s[p..end]) && (s[end] == ',' || s[end] == ':')
    ensures GetTypeOfToken(s[p..end]).Ok? ==>
      && GetNextToken(s, p) == Ok((Token(GetTypeOfToken(s[p..end]).value, s[p..end]), end))
      && GetNextToken(s, end) == Ok((Token(if s[end] == ',' then Comma else Colon, [s[end]]), end + 1))
  {
    WordEnds(s, p, end);
  }

  /**
   * Tokenizing from a word that ends as `WordEnds` says: the word's token
   * in front of the tokens from where reading resumes, or the
   * classification error.
   */
  lemma TokenizeAtWord(s: string, p: nat, end: nat)
    requires NoNul(s) && p < end <= |s| && AllAlnum(s[p..end])
    requires end == |s| || s[end] == EofChar || IsBlank(s[end]) || s[end] == ',' || s[end] == ':'
    ensures
      var next := if end == |s| || s[end] == ',' || s[end] == ':' then end else end + 1;
      && (GetTypeOfToken(s[p..end]).Err? ==> TokenizeFrom(s, p) == Err(GetTypeOfToken(s[p..end]).code))
      && (GetTypeOfToken(s[p..end]).Ok? ==> TokenizeFrom(s, next).Err? ==> TokenizeFrom(s, p) == TokenizeFrom(s, next))
      && (GetTypeOfToken(s[p..end]).Ok? ==> TokenizeFrom(s, next).Ok? ==>
            TokenizeFrom(s, p) == Ok([Token(GetTypeOfToken(s[p..end]).value, s[p..end])] + TokenizeFrom(s, next).value))
  {
    WordEnds(s, p, end);
    RunType(s[p..end]);
  }

  /** Tokenizing from a comma or colon: its token in front of the tokens after it. */
  lemma TokenizeAtPunctuation(s: string, p: nat)
    requires NoNul(s) && p < |s| && (s[p] == ',' || s[p] == ':')
    ensures TokenizeFrom(s, p + 1).Err? ==> TokenizeFrom(s, p) == TokenizeFrom(s, p + 1)
    ensures TokenizeFrom(s, p + 1).Ok? ==>
      TokenizeFrom(s, p) == Ok([Token(if s[p] == ',' then Comma else Colon, [s[p]])] + TokenizeFrom(s, p + 1).value)
  {
  }

  /** Blanks, or a comment line, before the next token leave the rest of the token stream unchanged. */
  lemma TokenizeSkips(s: string, pos: nat, end: nat)
    requires NoNul(s) && pos <= end <= |s|
    requires (forall k :: pos <= k < end ==> IsBlank(s[k])) ||
             (pos < end && end - 1 < |s| && s[pos] == CommentChar && s[end - 1] == '\n' &&
              forall k :: pos < k < end - 1 ==> s[k] != '\n' && s[k] != EofChar)
    ensures TokenizeFrom(s, pos) == TokenizeFrom(s, end)
  {
    if forall k :: pos <= k < end ==> IsBlank(s[k]) {
      BlanksSkipped(s, pos, end);
    } else {
      CommentSkipped(s, pos, end - 1);
    }
  }

  /** A single word is read as one token classified by `getTypeOfToken`, then EOF. */
  lemma TokenizeWord(w: string)
    requires 0 < |w| && AllAlnum(w)
    ensures NoNul(w)
    ensures GetTypeOfToken(w).Err? ==> Tokenize(w) == Err(GetTypeOfToken(w).code)
    ensures GetTypeOfToken(w).Ok? ==> Tokenize(w) == Ok([Token(GetTypeOfToken(w).value, w), Token(EOF, "EOF")])
  {
    assert NoNul(w);
    assert w[0..|w|] == w;
    TokenizeAtWord(w, 0, |w|);
    assert TokenizeFrom(w, |w|) == Ok([Token(EOF, "EOF")]);
    assert w[0..|w|] == w;
    if GetTypeOfToken(w).Ok? {
      var k := GetTypeOfToken(w).value;
      assert TokenizeFrom(w, 0) == Ok([Token(k, w)] + [Token(EOF, "EOF")]);
      assert [Token(k, w)] + [Token(EOF, "EOF")] == [Token(k, w), Token(EOF, "EOF")];
    }
  }
}
