/** The visual encoding byte by byte: what each flag changes, in the characters that are written. */
module VisForms {
  import opened Arith
  import opened Vis

  const NONE := Flags(false, false, false, false, false, false, false, false)

  // The codes of a text.
  function Codes(s: string): (r: seq<octet>)
    requires forall k | 0 <= k < |s| :: s[k] as int < 256
    ensures |r| == |s|
  {
    seq(|s|, k requires 0 <= k < |s| => s[k] as int)
  }

  // A backslash and three octal digits that stand for c.
  ghost predicate IsOctal(e: seq<octet>, c: octet) {
    && |e| == 4 && e[0] == 92 && (forall k | 1 <= k < 4 :: 48 <= e[k] <= 55)
    && c as int == (e[1] as int - 48) * 64 + (e[2] as int - 48) * 8 + (e[3] as int - 48)
  }

  // Without flags: a letter for the control characters from the bell to the carriage return, a double backslash, the
  // byte itself if it is printable, and octal digits for all others.
  lemma Unflagged(c: octet)
    ensures c == 7 ==> Encoded(NONE, c) == Codes("\\a")
    ensures c == 8 ==> Encoded(NONE, c) == Codes("\\b")
    ensures c == 9 ==> Encoded(NONE, c) == Codes("\\t")
    ensures c == 10 ==> Encoded(NONE, c) == Codes("\\n")
    ensures c == 11 ==> Encoded(NONE, c) == Codes("\\v")
    ensures c == 12 ==> Encoded(NONE, c) == Codes("\\f")
    ensures c == 13 ==> Encoded(NONE, c) == Codes("\\r")
    ensures c == 92 ==> Encoded(NONE, c) == Codes("\\\\")
    ensures 32 <= c <= 126 && c != 92 ==> Encoded(NONE, c) == [c]
    ensures c < 7 || 13 < c < 32 || 126 < c ==> IsOctal(Encoded(NONE, c), c)
  {
    OctalDigits(c);
  }

  // VIS_OCTAL alone changes nothing.
  lemma OctalFlag(f: Flags, c: octet)
    ensures Encoded(f.(octal := true), c) == Encoded(f.(octal := false), c)
  {
  }

  // VIS_SP alone changes the blank.
  lemma BlankFlag(c: octet)
    ensures Encoded(NONE.(sp := true), c) == if c == 32 then Codes("\\s") else Encoded(NONE, c)
  {
  }

  // VIS_DQ alone changes the double quote.
  lemma QuoteFlag(c: octet)
    ensures Encoded(NONE.(dq := true), c) == if c == 34 then Codes("\\\"") else Encoded(NONE, c)
  {
  }

  // VIS_TAB and VIS_NL give up the letter of one byte, and both write the blank in octal digits, too.
  lemma WhiteFlags(c: octet)
    ensures if c == 9 || c == 32 then IsOctal(Encoded(NONE.(tab := true), c), c)
            else Encoded(NONE.(tab := true), c) == Encoded(NONE, c)
    ensures if c == 10 || c == 32 then IsOctal(Encoded(NONE.(nl := true), c), c)
            else Encoded(NONE.(nl := true), c) == Encoded(NONE, c)
  {
    OctalDigits(c);
  }

  // VIS_NOSLASH gives up all letters: no byte but the unprintable ones is changed.
  lemma SlashFlag(c: octet)
    ensures if 32 <= c <= 126 then Encoded(NONE.(noslash := true), c) == [c]
            else IsOctal(Encoded(NONE.(noslash := true), c), c)
  {
    OctalDigits(c);
  }

  // VIS_ALL leaves no byte as it is: what has no letter is written in octal digits.
  lemma AllFlag(c: octet)
    ensures if 7 <= c <= 13 || c == 92 then Encoded(NONE.(all := true), c) == Encoded(NONE, c)
            else IsOctal(Encoded(NONE.(all := true), c), c)
  {
    OctalDigits(c);
  }

  // VIS_CSTYLE writes the control characters without a letter as a backslash and the key that goes with control, the
  // byte 0 like the byte 30, and the delete character as a question mark.
  lemma ControlFlag(c: octet)
    ensures var e := Encoded(NONE.(cstyle := true), c);
            if c == 0 || c == 30 then e == Codes("\\^")
            else if c < 7 || 13 < c < 32 then e == [92, c + 64]
            else if c == 127 then e == Codes("\\?") else e == Encoded(NONE, c)
  {
  }
}
