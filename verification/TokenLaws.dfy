/**
  * What streaming needs of the tokenizer: an answer other than "more" never changes when bytes are appended, and
  * "more" is only said of short data.
  */
module TokenLaws {
  import opened Utf8
  import opened Tokens

  lemma {:induction false} HexRunStable(d: Bytes, more: Bytes, n: nat)
    requires !HexRun(d, n).HexMore?
    ensures HexRun(d + more, n) == HexRun(d, n)
  {
    if n > 0 {
      HexRunPrefix(d, n - 1, n);
      HexRunStable(d, more, n - 1);
    }
  }

  lemma {:induction false} PercentRunStable(d: Bytes, more: Bytes, n: nat)
    requires !PercentRun(d, n).PercentMore?
    ensures PercentRun(d + more, n) == PercentRun(d, n)
  {
    hide HexRun;
    if n > 0 {
      PercentRunPrefix(d, n - 1, n);
      PercentRunStable(d, more, n - 1);
      var at := 3 * (n - 1);
      if PercentRun(d, n - 1).PercentBytes? && at < |d| && d[at] == PERCENT {
        HexRunStable(d[at + 1..], more, 2);
        assert (d + more)[at + 1..] == d[at + 1..] + more;
      }
    }
  }

  lemma PercentEscapeStable(d: Bytes, more: Bytes)
    requires !PercentEscape(d).EscapeMore?
    ensures PercentEscape(d + more) == PercentEscape(d)
  {
    PercentRunStable(d, more, 1);
    if PercentRun(d, 1).PercentBytes? {
      PercentRunStable(d, more, PercentNeed(PercentRun(d, 1).bytes[0]));
    }
  }

  lemma BackslashEscapeStable(d: Bytes, more: Bytes)
    requires d != [] && !BackslashEscape(d).EscapeMore?
    ensures BackslashEscape(d + more) == BackslashEscape(d)
  {
    assert (d + more)[2..] == d[2..] + more;
    if d[1] == LOWER_U {
      HexRunStable(d[2..], more, 4);
      if |d| >= 12 {
        HexRunStable(d[8..], more, 4);
        assert (d + more)[8..] == d[8..] + more;
      }
    } else if d[1] == LOWER_X {
      HexRunStable(d[2..], more, 2);
    }
  }

  lemma {:induction false} NamedEscapeStable(d: Bytes, more: Bytes, i: nat)
    requires 1 <= i <= |d| && i <= 6 && !NamedEscape(d, i).EscapeMore?
    ensures NamedEscape(d + more, i) == NamedEscape(d, i)
    decreases 6 - i
  {
    if i < |d| && i <= 5 {
      assert (d + more)[1..i] == d[1..i];
      if d[i] != SEMICOLON && IsLowerLetter(d[i]) {
        NamedEscapeStable(d, more, i + 1);
      }
    }
  }

  lemma {:induction false} NumericEscapeStable(d: Bytes, more: Bytes, hex: bool, i: nat, value: nat, c: HexCase)
    requires DigitsStart(hex) <= i <= |d| && i - DigitsStart(hex) <= MaxDigits(hex)
    requires !NumericEscape(d, hex, i, value, c).EscapeMore?
    ensures NumericEscape(d + more, hex, i, value, c) == NumericEscape(d, hex, i, value, c)
    decreases |d| - i
  {
    if d[i] != SEMICOLON && i - DigitsStart(hex) < MaxDigits(hex) && IsDigit(d[i], hex) {
      NumericEscapeStable(d, more, hex, i + 1, Base(hex) * value + HexValue(d[i]), FirstCase(c, HexCaseOf(d[i])));
    }
  }

  lemma ReferenceEscapeStable(d: Bytes, more: Bytes)
    requires d != [] && !ReferenceEscape(d).EscapeMore?
    ensures ReferenceEscape(d + more) == ReferenceEscape(d)
  {
    if d[1] != HASH {
      NamedEscapeStable(d, more, 1);
    } else {
      var hex := |d| > 2 && (d[2] == LOWER_X || d[2] == UPPER_X);
      NumericEscapeStable(d, more, hex, DigitsStart(hex), 0, NoCase);
    }
  }

  lemma EscapeAtStable(d: Bytes, more: Bytes)
    requires d != [] && !EscapeAt(d).EscapeMore?
    ensures EscapeAt(d + more) == EscapeAt(d)
  {
    if d[0] == PERCENT {
      PercentEscapeStable(d, more);
    } else if d[0] == BACKSLASH {
      BackslashEscapeStable(d, more);
    } else if d[0] == AMPERSAND {
      ReferenceEscapeStable(d, more);
    }
  }

  /** The key to streaming: once the tokenizer answers, later bytes do not change the answer. */
  lemma ReadTokenStable(d: Bytes, more: Bytes, escaped: bool, final: bool)
    requires d != [] && ReadToken(d, escaped, false).Token?
    ensures ReadToken(d + more, escaped, final) == ReadToken(d, escaped, false)
  {
    if escaped {
      EscapeAtStable(d, more);
    }
    if FullRune(d) {
      FullRuneStable(d, more);
    }
  }

  /** A plain ASCII byte is a token by itself in every mode. */
  lemma PlainByteToken(d: Bytes, escaped: bool, final: bool)
    requires d != [] && d[0] < 0x80 && !IsEscapeStart(d[0])
    ensures ReadToken(d, escaped, final) == Token(d[0], 1, PLAIN)
  {
  }
}
