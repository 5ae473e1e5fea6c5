/** The Python string built-ins the service relies on: `str.strip()`,
    `int(text)`, `str(n)`, `str.split(sep)` and ASCII case folding. */
module PyText {
  import opened Common

  /** `str.isspace()` for one character: the ASCII controls TAB..CR and
      FS..US, the space, NEL, NBSP, and the Unicode separators. */
  predicate IsSpace(c: char)
  {
    || c == ' '
    || ('\t' <= c <= '\r')
    || ('\U{1C}' <= c <= '\U{1F}')
    || c == '\U{85}' || c == '\U{A0}' || c == '\U{1680}'
    || ('\U{2000}' <= c <= '\U{200A}')
    || c == '\U{2028}' || c == '\U{2029}' || c == '\U{202F}'
    || c == '\U{205F}' || c == '\U{3000}'
  }

  /** The whitespace `int()` skips around its numeral: the same as
      `str.isspace()` except the ASCII separators FS..US, which `int()`
      keeps (and therefore rejects). */
  predicate IsIntSpace(c: char)
  {
    IsSpace(c) && !('\U{1C}' <= c <= '\U{1F}')
  }

  /** Drops the leading characters that satisfy `space` and nothing else. */
  function StripLeft(s: string, space: char -> bool): (r: string)
    ensures |r| <= |s| && r == s[|s| - |r|..]
    ensures |r| > 0 ==> !space(r[0])
    ensures forall i :: 0 <= i < |s| - |r| ==> space(s[i])
  {
    if |s| > 0 && space(s[0]) then
      var t := StripLeft(s[1..], space);
      assert s[|s| - |t|..] == s[1..][|s| - 1 - |t|..];
      assert forall i :: 1 <= i < |s| - |t| ==> s[i] == s[1..][i - 1];
      t
    else s
  }

  /** Drops the trailing characters that satisfy `space` and nothing else. */
  function StripRight(s: string, space: char -> bool): (r: string)
    ensures |r| <= |s| && r == s[..|r|]
    ensures |r| > 0 ==> !space(r[|r| - 1])
    ensures forall i :: |r| <= i < |s| ==> space(s[i])
  {
    if |s| > 0 && space(s[|s| - 1]) then
      var t := StripRight(s[..|s| - 1], space);
      assert s[..|t|] == s[..|s| - 1][..|t|];
      assert forall i :: |t| <= i < |s| - 1 ==> s[i] == s[..|s| - 1][i];
      t
    else s
  }

  /** Drops the characters that satisfy `space` at both ends. */
  function StripBy(s: string, space: char -> bool): (r: string)
    ensures |r| <= |s|
    ensures |r| > 0 ==> !space(r[0]) && !space(r[|r| - 1])
    ensures (forall i :: 0 <= i < |s| ==> !space(s[i])) ==> r == s
  {
    StripRight(StripLeft(s, space), space)
  }

  /** `s.strip()`. */
  function Strip(s: string): string
  {
    StripBy(s, IsSpace)
  }

  /** Stripping twice strips no more than stripping once. */
  lemma StripIdempotent(s: string, space: char -> bool)
    ensures StripBy(StripBy(s, space), space) == StripBy(s, space)
  {
    var t := StripBy(s, space);
    assert StripLeft(t, space) == t;
    assert StripRight(t, space) == t;
  }

  predicate IsDigit(c: char) { '0' <= c <= '9' }

  function DigitValue(c: char): (d: nat)
    requires IsDigit(c)
    ensures d < 10
  {
    (c as int) - ('0' as int)
  }

  function DigitChar(d: nat): (c: char)
    requires d < 10
    ensures IsDigit(c) && DigitValue(c) == d
  {
    ('0' as int + d) as char
  }

  /** The digit part `int()` accepts in base 10: ASCII digits, with single
      underscores allowed only between two digits. */
  predicate DigitRun(s: string)
  {
    && |s| > 0
    && IsDigit(s[0])
    && IsDigit(s[|s| - 1])
    && (forall i :: 0 <= i < |s| ==> IsDigit(s[i]) || s[i] == '_')
    && (forall i :: 0 <= i < |s| - 1 ==> s[i] == '_' ==> s[i + 1] != '_')
  }

  /** The number a digit run denotes; underscores are skipped. */
  function RunValue(s: string): nat
  {
    if |s| == 0 then 0
    else
      var c := s[|s| - 1];
      if IsDigit(c) then RunValue(s[..|s| - 1]) * 10 + DigitValue(c)
      else RunValue(s[..|s| - 1])
  }

  /** `int(text)` for base 10: surrounding `int()` whitespace is ignored,
      then one optional sign and a digit run. `None` stands for the
      `ValueError` it raises. */
  function ParseInt(text: string): (r: Option<int>)
    ensures |StripBy(text, IsIntSpace)| == 0 ==> r == None
    ensures r.Some? ==> forall i :: 0 <= i < |text| ==> !('\U{1C}' <= text[i] <= '\U{1F}')
  {
    NumeralRejectsSeparators(text);
    ParseSigned(StripBy(text, IsIntSpace))
  }

  /** Every character of a stripped text is either one the strip would
      have removed or the character at its place in the stripped text. */
  lemma StripByParts(s: string, space: char -> bool)
    ensures var k := |s| - |StripLeft(s, space)|;
            forall i :: 0 <= i < |s| ==>
              space(s[i]) || (k <= i < k + |StripBy(s, space)| && s[i] == StripBy(s, space)[i - k])
  {
    var u := StripLeft(s, space);
    var t := StripBy(s, space);
    var k := |s| - |u|;
    assert t == StripRight(u, space);
    forall i | k <= i < |s| && !space(s[i])
      ensures i < k + |t| && s[i] == t[i - k]
    {
      assert s[i] == u[i - k];
    }
  }

  /** What `int()` accepts holds no ASCII separator FS..US anywhere. */
  lemma NumeralRejectsSeparators(text: string)
    ensures ParseSigned(StripBy(text, IsIntSpace)).Some? ==>
              forall i :: 0 <= i < |text| ==> !('\U{1C}' <= text[i] <= '\U{1F}')
  {
    var t := StripBy(text, IsIntSpace);
    if ParseSigned(t).None? { return; }
    StripByParts(text, IsIntSpace);
    SignedNumeralChars(t);
  }

  /** Every character of a numeral `int()` accepts is a digit, `_` or a sign. */
  lemma SignedNumeralChars(t: string)
    requires ParseSigned(t).Some?
    ensures forall j :: 0 <= j < |t| ==> IsDigit(t[j]) || t[j] == '_' || t[j] == '+' || t[j] == '-'
  {
    if |t| > 0 && (t[0] == '-' || t[0] == '+') {
      assert forall j :: 1 <= j < |t| ==> t[j] == t[1..][j - 1];
    }
  }

  /** What `int()` makes of the stripped text. */
  function ParseSigned(t: string): (r: Option<int>)
    ensures |t| == 0 ==> r == None
  {
    if |t| > 0 && (t[0] == '-' || t[0] == '+') then
      var digits := t[1..];
      if DigitRun(digits) then
        var v: int := RunValue(digits);
        Some(if t[0] == '-' then -v else v)
      else None
    else if DigitRun(t) then
      Some(RunValue(t))
    else None
  }

  /** `str(n)` for a natural number: its shortest decimal numeral. */
  function NatToStr(n: nat): (r: string)
    ensures DigitRun(r) && RunValue(r) == n
    ensures forall i :: 0 <= i < |r| ==> IsDigit(r[i])
    ensures |r| > 1 ==> r[0] != '0'
  {
    if n < 10 then [DigitChar(n)]
    else
      var prefix := NatToStr(n / 10);
      var r := prefix + [DigitChar(n % 10)];
      assert r[..|r| - 1] == prefix;
      r
  }

  /** `str(i)` for any Python int. */
  function IntToStr(i: int): (r: string)
    ensures |r| > 0
  {
    if i < 0 then "-" + NatToStr(-i) else NatToStr(i)
  }

  /** A numeral contains no whitespace, so `strip` leaves it alone. */
  lemma NumeralHasNoSpace(i: int)
    ensures forall k :: 0 <= k < |IntToStr(i)| ==> !IsSpace(IntToStr(i)[k])
  {
    var d := NatToStr(if i < 0 then -i else i);
    assert forall k :: 0 <= k < |d| ==> IsDigit(d[k]);
  }

  /** `int(str(i)) == i`: the parser undoes the printer. */
  lemma IntRoundTrip(i: int)
    ensures ParseInt(IntToStr(i)) == Some(i)
  {
    NumeralHasNoSpace(i);
    var s := IntToStr(i);
    assert StripBy(s, IsIntSpace) == s;
    if i < 0 {
      assert s[1..] == NatToStr(-i);
    }
  }

  /** `int()` does not skip the ASCII separators that `str.strip()`
      removes: `int("\x1c5")` raises, while `int("\x1c5".strip())` is 5. */
  lemma SeparatorIsNotIntSpace()
    ensures ParseInt("\U{1C}5") == None
    ensures Strip("\U{1C}5") == "5" && ParseInt(Strip("\U{1C}5")) == Some(5)
  {
    SeparatorRejected();
    SeparatorStripped();
    IntRoundTrip(5);
    assert IntToStr(5) == "5";
  }

  lemma SeparatorRejected()
    ensures ParseInt("\U{1C}5") == None
  {
    var t := "\U{1C}5";
    assert t[0] == '\U{1C}' && t[1] == '5';
    assert StripBy(t, IsIntSpace) == t;
    assert !DigitRun(t);
  }

  lemma SeparatorStripped()
    ensures Strip("\U{1C}5") == "5"
  {
    var t := "\U{1C}5";
    var five := "5";
    assert t[0] == '\U{1C}' && t[1..] == five;
    assert IsSpace(t[0]) && !IsSpace(five[0]);
    assert StripLeft(five, IsSpace) == five;
    assert StripLeft(t, IsSpace) == five;
    assert StripRight(five, IsSpace) == five;
  }

  /** Index of the first `sep` in `s`. */
  function IndexOf(s: string, sep: char): (i: nat)
    requires sep in s
    ensures i < |s| && s[i] == sep && sep !in s[..i]
  {
    if s[0] == sep then 0
    else
      var j := IndexOf(s[1..], sep);
      assert s[..j + 1] == [s[0]] + s[1..][..j];
      j + 1
  }

  /** `sep.join(pieces)`; Python's join of an empty list is not needed here. */
  function Join(pieces: seq<string>, sep: char): string
    requires |pieces| >= 1
  {
    if |pieces| == 1 then pieces[0]
    else pieces[0] + [sep] + Join(pieces[1..], sep)
  }

  /** `s.split(sep)` for a one-character separator: always at least one
      piece, no piece holds the separator, and joining gives `s` back. */
  function Split(s: string, sep: char): (r: seq<string>)
    ensures |r| >= 1
    ensures forall k :: 0 <= k < |r| ==> sep !in r[k]
    ensures Join(r, sep) == s
    decreases |s|
  {
    if sep !in s then [s]
    else
      var i := IndexOf(s, sep);
      var rest := Split(s[i + 1..], sep);
      assert s == s[..i] + [sep] + s[i + 1..];
      [s[..i]] + rest
  }

  /** The first separator of `p + [sep] + t` is the one after `p`. */
  lemma IndexOfAfterPiece(p: string, t: string, sep: char)
    requires sep !in p
    ensures sep in p + [sep] + t
    ensures IndexOf(p + [sep] + t, sep) == |p|
  {
    var s := p + [sep] + t;
    assert s[|p|] == sep;
    assert s[..|p|] == p;
  }

  /** Splitting undoes joining, when no piece holds the separator. */
  lemma {:induction false} SplitJoin(pieces: seq<string>, sep: char)
    requires |pieces| >= 1
    requires forall k :: 0 <= k < |pieces| ==> sep !in pieces[k]
    ensures Split(Join(pieces, sep), sep) == pieces
    decreases |pieces|
  {
    if |pieces| > 1 {
      var tail := Join(pieces[1..], sep);
      var s := pieces[0] + [sep] + tail;
      assert Join(pieces, sep) == s;
      IndexOfAfterPiece(pieces[0], tail, sep);
      assert s[..|pieces[0]|] == pieces[0];
      assert s[|pieces[0]| + 1..] == tail;
      SplitJoin(pieces[1..], sep);
      assert Split(s, sep) == [pieces[0]] + pieces[1..];
    }
  }

  function LowerChar(c: char): char
  {
    if 'A' <= c <= 'Z' then (c as int + 32) as char else c
  }

  /** `s.lower()` restricted to ASCII letters. */
  function Lower(s: string): (r: string)
    ensures |r| == |s|
    ensures forall i :: 0 <= i < |s| ==> r[i] == LowerChar(s[i])
  {
    seq(|s|, i requires 0 <= i < |s| => LowerChar(s[i]))
  }
}
