/**
  Move validation: the part of `get_llm_move` that turns the model's raw
  text answer into either a legal cell index or nothing.
 */
module Moves {
  import opened Wrappers
  import opened Board

  // ---------------------------------------------------------------------
  // response.strip().split()[0]

  /** The ASCII characters Python's `str.split()` treats as whitespace. */
  predicate IsSpace(c: char) {
    c == ' ' || c == '\t' || c == '\n' || c == '\r' || c == '\U{000B}' || c == '\U{000C}'
  }

  predicate AllSpaces(s: string) {
    forall i :: 0 <= i < |s| ==> IsSpace(s[i])
  }

  /** A non-empty run of non-whitespace characters. */
  predicate IsToken(s: string) {
    |s| > 0 && forall i :: 0 <= i < |s| ==> !IsSpace(s[i])
  }

  /** The longest prefix of `s` without whitespace. */
  function TokenPrefix(s: string): string {
    if |s| == 0 || IsSpace(s[0]) then [] else [s[0]] + TokenPrefix(s[1..])
  }

  /**
    The first whitespace-separated word of the response, or `None` when the
    response is blank (where the source's `[0]` raises and the handler
    returns `None`).
   */
  function FirstToken(s: string): Option<string> {
    if |s| == 0 then None
    else if IsSpace(s[0]) then FirstToken(s[1..])
    else Some(TokenPrefix(s))
  }

  /** A response has no first token exactly when it is blank. */
  lemma {:induction false} FirstTokenBlank(s: string)
    ensures FirstToken(s).None? <==> AllSpaces(s)
  {
    if |s| > 0 {
      FirstTokenBlank(s[1..]);
      assert forall i :: 1 <= i < |s| ==> s[i] == s[1..][i - 1];
    }
  }

  lemma {:induction false} TokenPrefixOf(tok: string, rest: string)
    requires forall i :: 0 <= i < |tok| ==> !IsSpace(tok[i])
    requires rest == [] || IsSpace(rest[0])
    ensures TokenPrefix(tok + rest) == tok
  {
    if tok != [] {
      assert (tok + rest)[1..] == tok[1..] + rest;
      TokenPrefixOf(tok[1..], rest);
    }
  }

  /**
    Whatever leading whitespace, the first token is the first word, however
    the response continues after the next whitespace.
   */
  lemma {:induction false} FirstTokenOf(lead: string, tok: string, rest: string)
    requires AllSpaces(lead) && IsToken(tok)
    requires rest == [] || IsSpace(rest[0])
    ensures FirstToken(lead + tok + rest) == Some(tok)
  {
    if lead == [] {
      assert lead + tok + rest == tok + rest;
      TokenPrefixOf(tok, rest);
    } else {
      assert (lead + tok + rest)[1..] == lead[1..] + tok + rest;
      FirstTokenOf(lead[1..], tok, rest);
    }
  }

  // ---------------------------------------------------------------------
  // int(...)

  predicate IsDigit(c: char) {
    '0' <= c <= '9'
  }

  predicate AllDigits(s: string) {
    forall i :: 0 <= i < |s| ==> IsDigit(s[i])
  }

  function DigitValue(c: char): (d: nat)
    requires IsDigit(c)
    ensures d < 10
  {
    (c as int) - ('0' as int)
  }

  /** The value of a string of decimal digits, most significant first. */
  function DigitsValue(s: string): nat
    requires AllDigits(s)
  {
    if |s| == 0 then 0 else DigitsValue(s[..|s| - 1]) * 10 + DigitValue(s[|s| - 1])
  }

  /**
    Decimal integer syntax accepted by the model of `int()`: an optional
    sign followed by one or more ASCII digits.
   */
  function ParseInt(tok: string): Option<int> {
    if |tok| > 1 && (tok[0] == '-' || tok[0] == '+') && AllDigits(tok[1..]) then
      Some(if tok[0] == '-' then 0 - DigitsValue(tok[1..]) else DigitsValue(tok[1..]) as int)
    else if |tok| > 0 && AllDigits(tok) then
      Some(DigitsValue(tok))
    else
      None
  }

  function Digit(d: nat): (c: char)
    requires d < 10
    ensures IsDigit(c) && DigitValue(c) == d
  {
    (('0' as int) + d) as char
  }

  /** The canonical decimal text of `n`, as `str(n)` writes it. */
  function Decimal(n: nat): (s: string)
    ensures s != [] && AllDigits(s)
  {
    if n < 10 then [Digit(n)] else Decimal(n / 10) + [Digit(n % 10)]
  }

  /** Reading back the decimal text of a number gives the number. */
  lemma {:induction false} DecimalValue(n: nat)
    ensures DigitsValue(Decimal(n)) == n
  {
    var s := Decimal(n);
    if n >= 10 {
      DecimalValue(n / 10);
      assert s[..|s| - 1] == Decimal(n / 10);
    }
  }

  lemma ParseDecimal(n: nat)
    ensures ParseInt(Decimal(n)) == Some(n)
  {
    DecimalValue(n);
  }

  // ---------------------------------------------------------------------
  // get_llm_move, after the model has answered

  /** `int(response.strip().split()[0])`, with `None` for every raised exception. */
  function ParseMove(response: string): Option<int> {
    match FirstToken(response)
    case None => None
    case Some(tok) => ParseInt(tok)
  }

  /**
    The validation of `get_llm_move`: the parsed number when it is one of
    `available_moves(board)`, otherwise `None`. An accepted move is always in
    range and names an empty cell.
   */
  function ValidateMove(b: seq<Cell>, response: string): (r: Option<nat>)
    ensures r.Some? ==> r.value < |b| && b[r.value] == Empty
  {
    match ParseMove(response)
    case None => None
    case Some(m) => if m in AvailableMoves(b) then Some(m) else None
  }

  /**
    The move is accepted exactly when the answer parses to an index in
    range whose cell is empty, and then it is that index.
   */
  lemma ValidateMoveExact(b: seq<Cell>, response: string)
    ensures var r := ValidateMove(b, response);
      (r.Some? <==>
         ParseMove(response).Some? && 0 <= ParseMove(response).value < |b| &&
         b[ParseMove(response).value] == Empty) &&
      (r.Some? ==> r.value == ParseMove(response).value)
  {
    var v := ParseMove(response);
    if v.Some? && 0 <= v.value < |b| && b[v.value] == Empty {
      assert v.value in AvailableMoves(b);
    }
  }

  /**
    A well-formed answer naming a free cell, however much whitespace and
    trailing text surround it, is accepted as exactly that move.
   */
  lemma ValidateAcceptsLegal(b: seq<Cell>, m: nat, lead: string, rest: string)
    requires m < |b| && b[m] == Empty
    requires AllSpaces(lead) && (rest == [] || IsSpace(rest[0]))
    ensures ValidateMove(b, lead + Decimal(m) + rest) == Some(m)
  {
    var tok := Decimal(m);
    assert IsToken(tok) by {
      forall i | 0 <= i < |tok| ensures !IsSpace(tok[i]) {
        assert IsDigit(tok[i]);
      }
    }
    FirstTokenOf(lead, tok, rest);
    ParseDecimal(m);
  }
}
