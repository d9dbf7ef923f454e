/**
  The character-level pieces of the locker file format: how `fscanf`'s `%s`
  and `%d` conversions carve a text into white-space separated words, and how
  `fprintf`'s `%d` writes an integer in decimal.
 */
module Text {

  import opened Wrappers
  import opened Seqs

  /** White space as C's `isspace` sees it in the "C" locale:
      blank, tab, newline, vertical tab, form feed and carriage return. */
  predicate IsSpace(c: char) {
    c == ' ' || '\t' <= c <= '\r'
  }

  predicate AllSpace(s: string) {
    s == [] || (IsSpace(s[0]) && AllSpace(s[1..]))
  }

  predicate NoSpace(s: string) {
    s == [] || (!IsSpace(s[0]) && NoSpace(s[1..]))
  }

  /** A word that `%s` writes and reads back as one piece: non-empty, no white space. */
  predicate IsToken(s: string) {
    s != [] && NoSpace(s)
  }

  /** The white space every conversion of `fscanf` skips first; nothing is
      left exactly when the text was all white space. */
  function SkipSpace(s: string): (r: string)
    ensures |r| <= |s| && r == s[|s| - |r|..]
    ensures r == [] <==> AllSpace(s)
    ensures r == [] || !IsSpace(r[0])
  {
    if s != [] && IsSpace(s[0]) then SkipSpace(s[1..]) else s
  }

  /** Length of the longest prefix of `s` holding no white space. */
  function WordLength(s: string): (n: nat)
    ensures n <= |s| && NoSpace(s[..n])
    ensures n == |s| || IsSpace(s[n])
  {
    if s != [] && !IsSpace(s[0]) then
      var n := 1 + WordLength(s[1..]);
      assert s[..n][1..] == s[1..][..n - 1];
      n
    else 0
  }

  /** One `%s` conversion: skip white space, then take the longest run of
      non-space characters. `None` when only white space is left (end of file). */
  function ReadWord(s: string): (r: Option<(string, string)>)
    ensures r.None? <==> AllSpace(s)
    ensures r.Some? ==> IsToken(r.value.0) && |r.value.1| < |s|
    ensures r.Some? ==> r.value.1 == [] || IsSpace(r.value.1[0])
  {
    var t := SkipSpace(s);
    if t == [] then None
    else
      var n := WordLength(t);
      Some((t[..n], t[n..]))
  }

  /** Up to `n` successive `%s` conversions; fewer words come back only when
      the text runs out of words. */
  function ReadWords(s: string, n: nat): (r: (seq<string>, string))
    ensures |r.0| <= n
    ensures |r.0| == 0 ==> r.1 == s
    ensures |r.0| > 0 ==> |r.1| < |s| && (r.1 == [] || IsSpace(r.1[0]))
    ensures forall i :: 0 <= i < |r.0| ==> IsToken(r.0[i])
  {
    if n == 0 then ([], s)
    else
      match ReadWord(s)
      case None => ([], s)
      case Some(p) =>
        var more := ReadWords(p.1, n - 1);
        TokensCons(p.0, more.0);
        ([p.0] + more.0, more.1)
  }

  lemma TokensCons(w: string, ws: seq<string>)
    requires IsToken(w) && forall i :: 0 <= i < |ws| ==> IsToken(ws[i])
    ensures forall i :: 0 <= i < |[w] + ws| ==> IsToken(([w] + ws)[i])
  {
  }

  // ---------------------------------------------------------------- numbers

  predicate IsDigit(c: char) {
    '0' <= c <= '9'
  }

  /** Every character is a decimal digit (checked from the last one back, the way the value is built). */
  predicate AllDigits(s: string) {
    s == [] || (AllDigits(s[..|s| - 1]) && IsDigit(s[|s| - 1]))
  }

  predicate IsDigits(s: string) {
    s != [] && AllDigits(s)
  }

  function DigitValue(c: char): nat
    requires IsDigit(c)
  {
    (c as int) - ('0' as int)
  }

  function DigitChar(d: nat): (c: char)
    requires d < 10
    ensures IsDigit(c) && DigitValue(c) == d
  {
    (('0' as int) + d) as char
  }

  /** The value of a run of decimal digits, most significant first. */
  function DigitsValue(s: string): nat
    requires AllDigits(s)
  {
    if s == [] then 0 else DigitsValue(s[..|s| - 1]) * 10 + DigitValue(s[|s| - 1])
  }

  /** A word that `%d` converts in full: an optional sign, then decimal digits. */
  predicate IsNumeral(s: string) {
    if |s| > 0 && (s[0] == '-' || s[0] == '+') then IsDigits(s[1..]) else IsDigits(s)
  }

  function ParseInt(s: string): int
    requires IsNumeral(s)
  {
    if s[0] == '-' then -(DigitsValue(s[1..]) as int)
    else if s[0] == '+' then DigitsValue(s[1..])
    else DigitsValue(s)
  }

  /** `%d` of `fprintf` for a non-negative value. */
  function NatToString(n: nat): (s: string)
    ensures IsDigits(s) && IsDigit(s[0]) && DigitsValue(s) == n
  {
    if n < 10 then
      var s := [DigitChar(n)];
      assert s[..0] == [];
      s
    else
      var s := NatToString(n / 10) + [DigitChar(n % 10)];
      assert s[..|s| - 1] == NatToString(n / 10);
      s
  }

  /** `%d` of `fprintf`: a minus sign for negative values, then the digits.
      `%d` of `fscanf` reads the word back as the same value. */
  function IntToString(i: int): (s: string)
    ensures IsNumeral(s) && ParseInt(s) == i
    ensures IsToken(s)
  {
    if i < 0 then
      var d := NatToString(-i);
      var s := "-" + d;
      assert s[1..] == d;
      DigitsNoSpace(d);
      s
    else
      DigitsNoSpace(NatToString(i));
      NatToString(i)
  }

  lemma {:induction false} NoSpaceSnoc(a: string, c: char)
    requires NoSpace(a) && !IsSpace(c)
    ensures NoSpace(a + [c])
  {
    if a == [] {
      assert a + [c] == [c];
    } else {
      assert (a + [c])[1..] == a[1..] + [c];
      NoSpaceSnoc(a[1..], c);
    }
  }

  lemma {:induction false} DigitsNoSpace(s: string)
    requires AllDigits(s)
    ensures NoSpace(s)
  {
    if s != [] {
      DigitsNoSpace(s[..|s| - 1]);
      NoSpaceSnoc(s[..|s| - 1], s[|s| - 1]);
      SnocSlice(s);
    }
  }

  // ------------------------------------------------- reading what was written

  lemma {:induction false} SkipLeadingSpace(lead: string, s: string)
    requires AllSpace(lead)
    requires s == [] || !IsSpace(s[0])
    ensures SkipSpace(lead + s) == s
  {
    if lead != [] {
      assert (lead + s)[1..] == lead[1..] + s;
      SkipLeadingSpace(lead[1..], s);
    } else {
      assert lead + s == s;
    }
  }

  lemma {:induction false} WordLengthOfToken(w: string, tail: string)
    requires NoSpace(w)
    requires tail == [] || IsSpace(tail[0])
    ensures WordLength(w + tail) == |w|
  {
    if w != [] {
      assert (w + tail)[1..] == w[1..] + tail;
      WordLengthOfToken(w[1..], tail);
    } else {
      assert w + tail == tail;
    }
  }

  /** `%s` reads back a token written after white space and followed by white space or the end. */
  lemma ReadWordOfToken(lead: string, w: string, tail: string)
    requires AllSpace(lead) && IsToken(w)
    requires tail == [] || IsSpace(tail[0])
    ensures ReadWord(lead + w + tail) == Some((w, tail))
  {
    assert lead + w + tail == lead + (w + tail);
    SkipLeadingSpace(lead, w + tail);
    WordLengthOfToken(w, tail);
    assert (w + tail)[..|w|] == w;
    assert (w + tail)[|w|..] == tail;
  }

  /** Nothing but white space is left: every conversion meets the end of file. */
  lemma ReadWordsAtEnd(s: string, n: nat)
    requires AllSpace(s) && n > 0
    ensures ReadWords(s, n).0 == []
  {
  }

  /** The words of `ws` separated by single blanks, as a format string such as "%s %s" writes them. */
  function Unwords(ws: seq<string>): string
  {
    if |ws| <= 1 then (if ws == [] then "" else ws[0]) else ws[0] + " " + Unwords(ws[1..])
  }

  /** `|ws|` conversions read back exactly the words `Unwords` wrote, leaving the text that followed. */
  lemma {:induction false} ReadUnwords(lead: string, ws: seq<string>, tail: string)
    requires AllSpace(lead) && |ws| > 0
    requires forall i :: 0 <= i < |ws| ==> IsToken(ws[i])
    requires tail == [] || IsSpace(tail[0])
    ensures ReadWords(lead + Unwords(ws) + tail, |ws|) == (ws, tail)
    decreases |ws|, 1
  {
    if |ws| == 1 {
      ReadLastWord(lead, ws, tail);
    } else {
      ReadFirstWord(lead, ws, tail);
    }
  }

  lemma ReadLastWord(lead: string, ws: seq<string>, tail: string)
    requires AllSpace(lead) && |ws| == 1 && IsToken(ws[0])
    requires tail == [] || IsSpace(tail[0])
    ensures ReadWords(lead + Unwords(ws) + tail, |ws|) == (ws, tail)
  {
    assert Unwords(ws) == ws[0];
    assert ws == [ws[0]];
    ReadTokenAlone(lead, ws[0], tail, ws);
  }

  lemma ReadTokenAlone(lead: string, w: string, tail: string, ws: seq<string>)
    requires AllSpace(lead) && IsToken(w) && ws == [w]
    requires tail == [] || IsSpace(tail[0])
    ensures ReadWords(lead + w + tail, |ws|) == (ws, tail)
  {
    ReadWordOfToken(lead, w, tail);
    ReadOneWord(lead + w + tail, w, tail);
  }

  lemma ReadOneWord(s: string, w: string, tail: string)
    requires ReadWord(s) == Some((w, tail))
    ensures ReadWords(s, 1) == ([w], tail)
  {
    assert ReadWords(tail, 0) == ([], tail);
    EmptyLeft([w]);
  }

  lemma {:induction false} ReadFirstWord(lead: string, ws: seq<string>, tail: string)
    requires AllSpace(lead) && |ws| > 1
    requires forall i :: 0 <= i < |ws| ==> IsToken(ws[i])
    requires tail == [] || IsSpace(tail[0])
    ensures ReadWords(lead + Unwords(ws) + tail, |ws|) == (ws, tail)
    decreases |ws|, 0
  {
    var rest := " " + Unwords(ws[1..]) + tail;
    UnwordsCons(lead, ws, tail);
    ReadWordOfToken(lead, ws[0], rest);
    TokensTail(ws);
    ReadUnwords(" ", ws[1..], tail);
    ReadConsWords(lead + Unwords(ws) + tail, |ws|, ws[0], rest, ws[1..], tail);
    ConsSlice(ws);
  }

  lemma TokensTail(ws: seq<string>)
    requires |ws| > 0 && forall i :: 0 <= i < |ws| ==> IsToken(ws[i])
    ensures IsToken(ws[0]) && forall i :: 0 <= i < |ws[1..]| ==> IsToken(ws[1..][i])
  {
  }

  /** A word, then more words read from what follows it. */
  lemma ReadConsWords(s: string, n: nat, w: string, rest: string, more: seq<string>, tail: string)
    requires n > 0 && ReadWord(s) == Some((w, rest)) && ReadWords(rest, n - 1) == (more, tail)
    ensures ReadWords(s, n) == ([w] + more, tail)
  {
  }

  lemma UnwordsCons(lead: string, ws: seq<string>, tail: string)
    requires |ws| > 1
    ensures lead + Unwords(ws) + tail == lead + ws[0] + (" " + Unwords(ws[1..]) + tail)
    ensures (" " + Unwords(ws[1..]) + tail)[0] == ' '
  {
    var w := ws[0];
    var r := " " + Unwords(ws[1..]);
    assert Unwords(ws) == w + " " + Unwords(ws[1..]);
    Assoc(w, " ", Unwords(ws[1..]));
    Assoc(lead, w, r);
    Assoc(lead + w, r, tail);
  }
}
