/** Text in XML: how the encoder escapes it and how the decoder's text reader, in strict mode,
    reads it back. Text is a sequence of code points; bytes that are no UTF-8 stand for U+FFFD. */
module XmlText {
  import opened Options

  const REPLACEMENT: char := '\U{FFFD}'

  /** The characters XML allows. Surrogates, which the source's range takes in by mistake, are
      no code points of a string. */
  predicate InCharacterRange(c: char) {
    var r := c as int;
    r == 0x09 || r == 0x0A || r == 0x0D || 0x20 <= r <= 0xDF77 || 0xE000 <= r <= 0xFFFD || 0x10000 <= r <= 0x10FFFF
  }

  // ---------------------------------------------------------------- escaping

  /** What is written for a character that cannot stand as it is. */
  function Escape(c: char, escapeNewline: bool): Option<string> {
    if c == '"' then Some("&#34;")
    else if c == '\'' then Some("&#39;")
    else if c == '&' then Some("&amp;")
    else if c == '<' then Some("&lt;")
    else if c == '>' then Some("&gt;")
    else if c == '\t' then Some("&#x9;")
    else if c == '\n' then if escapeNewline then Some("&#xA;") else None
    else if c == '\r' then Some("&#xD;")
    else if !InCharacterRange(c) then Some([REPLACEMENT])
    else None
  }

  function Escaped(s: string, escapeNewline: bool): string {
    if s == "" then ""
    else
      var e := Escape(s[0], escapeNewline);
      (if e.Some? then e.value else [s[0]]) + Escaped(s[1..], escapeNewline)
  }

  lemma {:induction false} EscapedMore(s: string, t: string, escapeNewline: bool)
    ensures Escaped(s + t, escapeNewline) == Escaped(s, escapeNewline) + Escaped(t, escapeNewline)
  {
    hide Escape, Written;
    if s == "" {
      assert s + t == t && Escaped(s, escapeNewline) == "";
    } else {
      var all, rest, w := s + t, s[1..], Written(s[0], escapeNewline);
      assert all[0] == s[0] && all[1..] == rest + t;
      EscapedStep(s, escapeNewline);
      EscapedStep(all, escapeNewline);
      EscapedMore(rest, t, escapeNewline);
      hide Escaped;
      assert w + (Escaped(rest, escapeNewline) + Escaped(t, escapeNewline))
          == w + Escaped(rest, escapeNewline) + Escaped(t, escapeNewline);
    }
  }

  /** escapeText, and with escapeNewline also EscapeString: runs of characters that may stand
      are written as they are. */
  method EscapeText(s: string, escapeNewline: bool) returns (w: string)
    ensures w == Escaped(s, escapeNewline)
  {
    w := "";
    var last, i := 0, 0;
    while i < |s|
      invariant 0 <= last <= i <= |s|
      invariant w + s[last..i] == Escaped(s[..i], escapeNewline)
    {
      EscapedMore(s[..i], [s[i]], escapeNewline);
      assert s[..i + 1] == s[..i] + [s[i]];
      assert s[last..i + 1] == s[last..i] + [s[i]];
      var e := Escape(s[i], escapeNewline);
      i := i + 1;
      if e.Some? {
        w := w + s[last..i - 1] + e.value;
        last := i;
      }
    }
    w := w + s[last..];
    assert s[..|s|] == s;
  }

  // ---------------------------------------------------------------- character references

  function DigitValue(c: char, base: nat): Option<nat> {
    if '0' <= c <= '9' then Some(c as nat - '0' as nat)
    else if base == 16 && 'a' <= c <= 'f' then Some(c as nat - 'a' as nat + 10)
    else if base == 16 && 'A' <= c <= 'F' then Some(c as nat - 'A' as nat + 10)
    else None
  }

  /** The digits at the front of s, their number and the value they have after a start value. */
  function Digits(s: string, base: nat, start: nat): (r: (nat, nat))
    ensures r.0 <= |s|
  {
    if s == "" || DigitValue(s[0], base).None? then (0, start)
    else
      var (n, v) := Digits(s[1..], base, start * base + DigitValue(s[0], base).value);
      (n + 1, v)
  }

  /** string(rune(n)): a surrogate gives the replacement character. */
  function FromRune(n: nat): char
    requires n <= 0x10FFFF
  {
    if 0xD800 <= n <= 0xDFFF then REPLACEMENT else n as char
  }

  predicate IsNameChar(c: char) {
    || c as int >= 0x80 || 'A' <= c <= 'Z' || 'a' <= c <= 'z' || '0' <= c <= '9'
    || c == '_' || c == ':' || c == '.' || c == '-'
  }

  /** How far readName goes: over ASCII characters that may be in names, and all others. */
  function NameLength(s: string): (n: nat)
    ensures n <= |s| && (forall i :: 0 <= i < n ==> IsNameChar(s[i])) && (n < |s| ==> !IsNameChar(s[n]))
  {
    if s == "" || !IsNameChar(s[0]) then 0 else 1 + NameLength(s[1..])
  }

  function Entity(name: string): Option<char> {
    if name == "lt" then Some('<')
    else if name == "gt" then Some('>')
    else if name == "amp" then Some('&')
    else if name == "apos" then Some('\'')
    else if name == "quot" then Some('"')
    else None
  }

  /** What follows an ampersand, up to its semicolon: the character, and what is left. */
  function Reference(s: string): (r: Option<(char, string)>)
    ensures r.Some? ==> |r.value.1| < |s|
  {
    if s != "" && s[0] == '#' then
      var hex := |s| > 1 && s[1] == 'x';
      var from := if hex then 2 else 1;
      var (n, v) := Digits(s[from..], if hex then 16 else 10, 0);
      var end := from + n;
      if end < |s| && s[end] == ';' && n > 0 && v <= 0x10FFFF then Some((FromRune(v), s[end + 1..])) else None
    else
      var n := NameLength(s);
      if n < |s| && s[n] == ';' && Entity(s[..n]).Some? then Some((Entity(s[..n]).value, s[n + 1..])) else None
  }

  // ---------------------------------------------------------------- reading text

  /** Where text ends: at a markup character or the end of the input, at a quote, or at the end
      of a CDATA section. */
  datatype Ending = AtMarkup | AtQuote(quote: char) | AtCData

  predicate AllInRange(s: string) {
    forall c <- s :: InCharacterRange(c)
  }

  function Checked(data: string, rest: string): Option<(string, string)> {
    if AllInRange(data) then Some((data, rest)) else None
  }

  const NUL: char := '\0'

  /** The data read from s on, and what is left, when buf has been read and b0 and b1 were the
      last two characters as they stood in the input. None is a syntax error. */
  function TextFrom(s: string, ending: Ending, buf: string, b0: char, b1: char): Option<(string, string)>
    decreases |s|
  {
    if s == "" then if ending.AtCData? then None else Checked(buf, "")
    else
      var b, rest := s[0], s[1..];
      if b0 == ']' && b1 == ']' && b == '>' then
        if ending.AtCData? && |buf| >= 2 then Checked(buf[..|buf| - 2], rest) else None
      else if b == '<' && !ending.AtCData? then
        if ending.AtQuote? then None else Checked(buf, s)
      else if ending.AtQuote? && b == ending.quote then Checked(buf, rest)
      else if b == '&' && !ending.AtCData? then
        match Reference(rest)
        case None => None
        case Some((c, left)) => TextFrom(left, ending, buf + [c], NUL, NUL)
      else
        TextFrom(rest, ending, NormalizeLine(buf, b1, b), b1, b)
  }

  /** A carriage return is read as a newline, together with a newline that follows it. */
  function NormalizeLine(buf: string, b1: char, b: char): string {
    if b == '\r' then buf + "\n" else if b1 == '\r' && b == '\n' then buf else buf + [b]
  }

  method ScanDigits(s: string, base: nat) returns (i: nat, value: nat)
    ensures (i, value) == Digits(s, base, 0)
  {
    i, value := 0, 0;
    while i < |s| && DigitValue(s[i], base).Some?
      invariant i <= |s|
      invariant i + Digits(s[i..], base, value).0 == Digits(s, base, 0).0
      invariant Digits(s[i..], base, value).1 == Digits(s, base, 0).1
    {
      assert s[i..][1..] == s[i + 1..];
      value := value * base + DigitValue(s[i], base).value;
      i := i + 1;
    }
  }

  method ScanName(s: string) returns (i: nat)
    ensures i == NameLength(s)
  {
    i := 0;
    while i < |s| && IsNameChar(s[i])
      invariant 0 <= i <= |s| && i + NameLength(s[i..]) == NameLength(s)
    {
      assert s[i..][1..] == s[i + 1..];
      i := i + 1;
    }
  }

  method ReadReference(s: string) returns (r: Option<(char, string)>)
    ensures r == Reference(s)
  {
    hide Digits, NameLength, Entity, FromRune;
    if s != "" && s[0] == '#' {
      var hex := |s| > 1 && s[1] == 'x';
      var from := if hex then 2 else 1;
      var n, value := ScanDigits(s[from..], if hex then 16 else 10);
      var end := from + n;
      if end == |s| || s[end] != ';' || n == 0 || value > 0x10FFFF {
        return None;
      }
      return Some((FromRune(value), s[end + 1..]));
    }
    var n := ScanName(s);
    if n == |s| || s[n] != ';' {
      return None;
    }
    var c := Entity(s[..n]);
    return if c.Some? then Some((c.value, s[n + 1..])) else None;
  }

  method Text(input: string, ending: Ending) returns (r: Option<(string, string)>)
    ensures r == TextFrom(input, ending, "", NUL, NUL)
  {
    hide Reference;
    var s, buf, b0, b1 := input, "", NUL, NUL;
    while s != ""
      invariant TextFrom(s, ending, buf, b0, b1) == TextFrom(input, ending, "", NUL, NUL)
      decreases |s|
    {
      var b, rest := s[0], s[1..];
      if b0 == ']' && b1 == ']' && b == '>' {
        return if ending.AtCData? && |buf| >= 2 then Checked(buf[..|buf| - 2], rest) else None;
      }
      if b == '<' && !ending.AtCData? {
        return if ending.AtQuote? then None else Checked(buf, s);
      }
      if ending.AtQuote? && b == ending.quote {
        return Checked(buf, rest);
      }
      if b == '&' && !ending.AtCData? {
        var found := ReadReference(rest);
        if found.None? {
          return None;
        }
        buf, s, b0, b1 := buf + [found.value.0], found.value.1, NUL, NUL;
      } else {
        buf := NormalizeLine(buf, b1, b);
        s, b0, b1 := rest, b1, b;
      }
    }
    r := if ending.AtCData? then None else Checked(buf, "");
  }

  // ---------------------------------------------------------------- the round trip

  /** What reading back gives for a character: itself, if XML allows it. */
  function Allowed(c: char): (r: char)
    ensures InCharacterRange(c) ==> r == c
  {
    if InCharacterRange(c) then c else REPLACEMENT
  }

  function AllAllowed(s: string): (r: string)
    ensures |r| == |s| && AllInRange(r) && (AllInRange(s) ==> r == s)
  {
    if s == "" then ""
    else
      assert s == [s[0]] + s[1..];
      [Allowed(s[0])] + AllAllowed(s[1..])
  }

  // ---------------------------------------------------------------- references spelled out

  function Digit(d: nat, upper: bool): char
    requires d < 16
  {
    if upper then "0123456789ABCDEF"[d] else "0123456789abcdef"[d]
  }

  /** A number in base 10 or 16. */
  function Numeral(n: nat, base: nat, upper: bool): (s: string)
    requires base == 10 || base == 16
    ensures s != ""
  {
    if n < base then [Digit(n, upper)] else Numeral(n / base, base, upper) + [Digit(n % base, upper)]
  }

  predicate AllDigits(s: string, base: nat) {
    forall c <- s :: DigitValue(c, base).Some?
  }

  lemma {:induction false} DigitsMore(s: string, t: string, base: nat, start: nat)
    requires AllDigits(s, base)
    ensures Digits(s, base, start).0 == |s|
    ensures var (n, v) := Digits(t, base, Digits(s, base, start).1); Digits(s + t, base, start) == (|s| + n, v)
  {
    hide DigitValue;
    if s == "" {
      assert s + t == t;
    } else {
      assert (s + t)[1..] == s[1..] + t && s[0] in s;
      DigitsMore(s[1..], t, base, start * base + DigitValue(s[0], base).value);
    }
  }

  lemma DigitHasValue(d: nat, base: nat, upper: bool)
    requires (base == 10 || base == 16) && d < base
    ensures DigitValue(Digit(d, upper), base) == Some(d)
  {
  }

  lemma {:induction false} NumeralReadsBack(n: nat, base: nat, upper: bool)
    requires base == 10 || base == 16
    ensures AllDigits(Numeral(n, base, upper), base)
    ensures Digits(Numeral(n, base, upper), base, 0).1 == n
  {
    hide Digits;
    if n < base {
      LastDigit(n, base, upper, 0);
    } else {
      NumeralReadsBack(n / base, base, upper);
      LastDigit(n % base, base, upper, n / base);
      DigitsMore(Numeral(n / base, base, upper), [Digit(n % base, upper)], base, 0);
      hide DigitValue, Digit;
      assert n / base * base + n % base == n by { hide *; }
    }
  }

  lemma LastDigit(d: nat, base: nat, upper: bool, start: nat)
    requires (base == 10 || base == 16) && d < base
    ensures DigitValue(Digit(d, upper), base).Some? && Digits([Digit(d, upper)], base, start) == (1, start * base + d)
  {
    DigitHasValue(d, base, upper);
    hide DigitValue, Digit;
    assert [Digit(d, upper)][1..] == "";
  }

  /** A numeric reference, decimal or hexadecimal in letters of either case, is the character of that
      number; U+FFFD for a surrogate; and none if the number is too large. */
  lemma NumberIsCharacter(n: nat, base: nat, upper: bool, rest: string)
    requires base == 10 || base == 16
    ensures var s := (if base == 16 then "#x" else "#") + Numeral(n, base, upper) + ";" + rest;
      && (Reference(s).Some? <==> n <= 0x10FFFF)
      && (n <= 0x10FFFF ==> Reference(s).value.1 == rest)
      && (n <= 0x10FFFF ==>
            Reference(s).value.0 as int == if 0xD800 <= n <= 0xDFFF then 0xFFFD else n)
  {
    hide Digits, DigitValue, Numeral, Entity, NameLength;
    var hex := base == 16;
    var before := if hex then "#x" else "#";
    var numeral := Numeral(n, base, upper);
    var s := before + numeral + ";" + rest;
    NumeralReadsBack(n, base, upper);
    DigitsMore(numeral, ";" + rest, base, 0);
    SemicolonIsNoDigit(base, n, rest);
    assert s == before + (numeral + (";" + rest)) && s[|before|..] == numeral + (";" + rest);
    if !hex {
      FirstDigit(n, upper);
      assert s[1] == numeral[0];
    }
    assert s[|before| + |numeral|] == ';' && s[|before| + |numeral| + 1..] == rest;
  }

  lemma SemicolonIsNoDigit(base: nat, start: nat, rest: string)
    ensures Digits(";" + rest, base, start) == (0, start)
  {
  }

  lemma {:induction false} FirstDigit(n: nat, upper: bool)
    ensures Numeral(n, 10, upper)[0] != 'x'
  {
    if n < 10 {
    } else {
      FirstDigit(n / 10, upper);
    }
  }

  /** The five names there are. */
  lemma FiveNames(rest: string)
    ensures Reference("lt;" + rest) == Some(('<', rest))
    ensures Reference("gt;" + rest) == Some(('>', rest))
    ensures Reference("amp;" + rest) == Some(('&', rest))
    ensures Reference("apos;" + rest) == Some(('\'', rest))
    ensures Reference("quot;" + rest) == Some(('"', rest))
  {
    NamedIs("lt", rest);
    NamedIs("gt", rest);
    NamedIs("amp", rest);
    NamedIs("apos", rest);
    NamedIs("quot", rest);
    assert "lt" + ";" == "lt;" && "gt" + ";" == "gt;" && "amp" + ";" == "amp;";
    assert "apos" + ";" == "apos;" && "quot" + ";" == "quot;";
  }

  /** A reference by a name that is none of them is an error, and so is one without a semicolon. */
  lemma NoOtherName(name: string, rest: string)
    requires forall c <- name :: IsNameChar(c)
    ensures name !in {"lt", "gt", "amp", "apos", "quot"} ==> Reference(name + ";" + rest).None?
    ensures rest == "" || (!IsNameChar(rest[0]) && rest[0] != ';' && (name == "" ==> rest[0] != '#')) ==>
      Reference(name + rest).None?
  {
    NamedIs(name, rest);
    NameStops(name, rest);
    assert name != "" ==> (name + rest)[0] == name[0] && name[0] in name;
  }

  lemma NamedIs(name: string, rest: string)
    requires forall c <- name :: IsNameChar(c)
    ensures Reference(name + ";" + rest)
         == match Entity(name) case None => None case Some(c) => Some((c, rest))
  {
    hide Entity;
    var s := name + ";" + rest;
    NameIsRead(name, rest);
    Cut(name, ';', rest);
    assert name + ";" == name + [';'];
    assert s[0] == if name == "" then ';' else name[0];
    assert name != "" ==> name[0] in name;
  }

  lemma {:induction false} NameStops(name: string, rest: string)
    requires forall c <- name :: IsNameChar(c)
    ensures rest == "" || !IsNameChar(rest[0]) ==> NameLength(name + rest) == |name|
  {
    if name == "" {
      assert name + rest == rest;
    } else {
      assert name[0] in name && (name + rest)[1..] == name[1..] + rest;
      NameStops(name[1..], rest);
    }
  }

  // ---------------------------------------------------------------- text spelled out

  /** A carriage return and a newline are one newline, and so is a carriage return alone. */
  function Newlines(s: string): string {
    if s == "" then ""
    else if |s| > 1 && s[0] == '\r' && s[1] == '\n' then "\n" + Newlines(s[2..])
    else (if s[0] == '\r' then "\n" else [s[0]]) + Newlines(s[1..])
  }

  /** The newlines after a character was read. */
  function NewlinesAfter(b1: char, s: string): string {
    if b1 == '\r' && s != "" && s[0] == '\n' then Newlines(s[1..]) else Newlines(s)
  }

  lemma NewlinesStep(b1: char, s: string, buf: string)
    requires s != ""
    ensures NormalizeLine(buf, b1, s[0]) + NewlinesAfter(s[0], s[1..]) == buf + NewlinesAfter(b1, s)
  {
    var c, rest := s[0], s[1..];
    FirstLine(s);
    if c == '\r' {
      assert buf + "\n" + NewlinesAfter(c, rest) == buf + ("\n" + NewlinesAfter(c, rest));
    } else {
      assert NewlinesAfter(c, rest) == Newlines(rest);
      hide Newlines;
      if b1 != '\r' || c != '\n' {
        assert buf + [c] + Newlines(rest) == buf + ([c] + Newlines(rest));
      }
    }
  }

  lemma FirstLine(s: string)
    requires s != ""
    ensures s[0] == '\r' ==> Newlines(s) == "\n" + NewlinesAfter(s[0], s[1..])
    ensures s[0] != '\r' ==> Newlines(s) == [s[0]] + Newlines(s[1..])
  {
    if |s| > 1 {
      assert s[1..][0] == s[1] && s[1..][1..] == s[2..];
    }
  }

  /** Where in s the end of a CDATA section is. */
  predicate HasCDataEnd(s: string) {
    exists k :: 0 <= k && k + 3 <= |s| && "]]>" <= s[k..]
  }

  /** Characters that stand for themselves. */
  predicate Literal(s: string, ending: Ending) {
    && !HasCDataEnd(s)
    && (!ending.AtCData? ==> forall c <- s :: c != '&' && c != '<')
    && (ending.AtQuote? ==> ending.quote !in s && ending.quote in {'"', '\''})
  }

  function Last(s: string): char {
    if |s| > 0 then s[|s| - 1] else NUL
  }

  function SecondLast(s: string): char {
    if |s| > 1 then s[|s| - 2] else NUL
  }

  /** Of a literal text, p has been read and s is to come. */
  lemma {:induction false} LiteralIsRead(p: string, s: string, more: string, ending: Ending, buf: string)
    requires Literal(p + s, ending)
    ensures TextFrom(s + more, ending, buf, SecondLast(p), Last(p))
         == TextFrom(more, ending, buf + NewlinesAfter(Last(p), s), SecondLast(p + s), Last(p + s))
    decreases |s|
  {
    if s == "" {
      assert s + more == more && p + s == p && buf + NewlinesAfter(Last(p), s) == buf;
    } else {
      hide NormalizeLine, Checked, NewlinesAfter;
      assert (s + more)[1..] == s[1..] + more && s[0] in p + s;
      assert p + [s[0]] + s[1..] == p + s;
      assert SecondLast(p + [s[0]]) == Last(p) && Last(p + [s[0]]) == s[0];
      NoEndYet(p, s);
      LiteralIsRead(p + [s[0]], s[1..], more, ending, NormalizeLine(buf, Last(p), s[0]));
      NewlinesStep(Last(p), s, buf);
    }
  }

  /** A reference, as it is spelled behind the ampersand, the character it stands for, and the literal
      text up to the next. */
  datatype Referred = Referred(spelling: string, c: char, text: string)

  ghost predicate Refers(spelling: string, c: char) {
    forall rest :: Reference(spelling + rest) == Some((c, rest))
  }

  ghost predicate AllRefer(first: string, more: seq<Referred>, ending: Ending) {
    && Literal(first, ending)
    && (forall i :: 0 <= i < |more| ==> Literal(more[i].text, ending) && Refers(more[i].spelling, more[i].c))
  }

  /** Literal text with references in it. */
  function WithReferences(first: string, more: seq<Referred>): string
    decreases |more|
  {
    if more == [] then first else first + ("&" + (more[0].spelling + WithReferences(more[0].text, more[1..])))
  }

  function Meant(first: string, more: seq<Referred>): string
    decreases |more|
  {
    if more == [] then Newlines(first) else Newlines(first) + [more[0].c] + Meant(more[0].text, more[1..])
  }

  lemma LastIsRead(last: string, tail: string, ending: Ending, buf: string)
    requires Literal(last, ending) && !ending.AtCData?
    requires if ending.AtQuote? then tail != "" && tail[0] == ending.quote else tail == "" || tail[0] == '<'
    ensures TextFrom(last + tail, ending, buf, NUL, NUL)
         == Checked(buf + Newlines(last), if ending.AtQuote? then tail[1..] else tail)
  {
    hide HasCDataEnd, Checked, NormalizeLine, Newlines, Reference;
    assert SecondLast("") == NUL == Last("") && "" + last == last;
    assert NewlinesAfter(NUL, last) == Newlines(last);
    LiteralIsRead("", last, tail, ending, buf);
  }

  lemma ReferenceIsRead(before: string, spelling: string, c: char, rest: string, ending: Ending, buf: string)
    requires Literal(before, ending) && Refers(spelling, c) && !ending.AtCData?
    ensures TextFrom(before + ("&" + (spelling + rest)), ending, buf, NUL, NUL)
         == TextFrom(rest, ending, buf + Newlines(before) + [c], NUL, NUL)
  {
    hide HasCDataEnd, Checked, NormalizeLine, Newlines, Reference;
    assert SecondLast("") == NUL == Last("") && "" + before == before;
    assert NewlinesAfter(NUL, before) == Newlines(before);
    LiteralIsRead("", before, "&" + (spelling + rest), ending, buf);
    assert ("&" + (spelling + rest))[1..] == spelling + rest;
    assert Reference(spelling + rest) == Some((c, rest));
  }

  lemma {:induction false} ReferencesAreRead(
    first: string, more: seq<Referred>, tail: string, ending: Ending, buf: string)
    requires AllRefer(first, more, ending) && !ending.AtCData?
    requires if ending.AtQuote? then tail != "" && tail[0] == ending.quote else tail == "" || tail[0] == '<'
    ensures TextFrom(WithReferences(first, more) + tail, ending, buf, NUL, NUL)
         == Checked(buf + Meant(first, more), if ending.AtQuote? then tail[1..] else tail)
    decreases |more|
  {
    hide Newlines, Literal, Checked, TextFrom, Refers;
    if more == [] {
      LastIsRead(first, tail, ending, buf);
    } else {
      var m := more[0];
      var rest := WithReferences(m.text, more[1..]) + tail;
      ReferenceIsRead(first, m.spelling, m.c, rest, ending, buf);
      assert WithReferences(first, more) + tail == first + ("&" + (m.spelling + rest));
      var read := buf + Newlines(first) + [m.c];
      ReferencesAreRead(m.text, more[1..], tail, ending, read);
      assert read + Meant(m.text, more[1..]) == buf + Meant(first, more);
    }
  }

  /** Any text of literal parts and references is read as what they mean, up to the end, to markup or
      to its quote, with the line ends of each part made newlines; if all of it are characters of XML. */
  lemma TextIsRead(first: string, more: seq<Referred>, tail: string, ending: Ending)
    requires AllRefer(first, more, ending) && !ending.AtCData?
    requires ending.AtMarkup? ==> tail == "" || tail[0] == '<'
    ensures var text := WithReferences(first, more);
      var r := TextFrom(if ending.AtQuote? then text + [ending.quote] + tail else text + tail, ending, "", NUL, NUL);
      r == if AllInRange(Meant(first, more)) then Some((Meant(first, more), tail)) else None
  {
    var text := WithReferences(first, more);
    assert "" + Meant(first, more) == Meant(first, more);
    if ending.AtQuote? {
      ReferencesAreRead(first, more, [ending.quote] + tail, ending, "");
      assert text + [ending.quote] + tail == text + ([ending.quote] + tail);
    } else {
      ReferencesAreRead(first, more, tail, ending, "");
    }
  }

  /** In text the end of a CDATA section is an error, in quotes an angle bracket is, and so is an
      ampersand that begins no reference. */
  lemma MisplacedIsError(s: string, tail: string, ending: Ending)
    requires Literal(s, ending) && !ending.AtCData?
    ensures TextFrom(s + ("]]>" + tail), ending, "", NUL, NUL).None?
    ensures ending.AtQuote? ==> TextFrom(s + ("<" + tail), ending, "", NUL, NUL).None?
    ensures Reference(tail).None? ==> TextFrom(s + ("&" + tail), ending, "", NUL, NUL).None?
  {
    assert SecondLast("") == NUL == Last("") && "" + s == s;
    LiteralIsRead("", s, "]]>" + tail, ending, "");
    TwoBrackets(tail, ending, "" + NewlinesAfter(NUL, s), SecondLast(s), Last(s));
    LiteralIsRead("", s, "<" + tail, ending, "");
    LiteralIsRead("", s, "&" + tail, ending, "");
    assert ("&" + tail)[1..] == tail;
  }

  /** A CDATA section is read up to its first end, whatever else is in it, with its line ends made
      newlines, and without an end it is an error. */
  lemma CDataIsRead(s: string, tail: string)
    requires !HasCDataEnd(s)
    ensures TextFrom(s + ("]]>" + tail), AtCData, "", NUL, NUL)
         == if AllInRange(Newlines(s)) then Some((Newlines(s), tail)) else None
    ensures TextFrom(s, AtCData, "", NUL, NUL).None?
  {
    assert SecondLast("") == NUL == Last("") && "" + s == s && s + "" == s;
    assert Literal(s, AtCData) && NewlinesAfter(NUL, s) == Newlines(s);
    hide Literal, Newlines, NewlinesAfter, NormalizeLine, Reference, Last, SecondLast;
    LiteralIsRead("", s, "", AtCData, "");
    LiteralIsRead("", s, "]]>" + tail, AtCData, "");
    CDataEnds(tail, Newlines(s), SecondLast(s), Last(s));
    assert "" + Newlines(s) == Newlines(s);
    Unended("" + Newlines(s), SecondLast(s), Last(s));
    hide TextFrom;
  }

  lemma Unended(buf: string, b0: char, b1: char)
    ensures TextFrom("", AtCData, buf, b0, b1).None?
  {
  }

  lemma NoEndYet(p: string, s: string)
    requires s != "" && !HasCDataEnd(p + s)
    ensures SecondLast(p) != ']' || Last(p) != ']' || s[0] != '>'
  {
    if |p| > 1 {
      var k := |p| - 2;
      assert (p + s)[k..][..3] == [p[k], p[k + 1], s[0]];
      assert !("]]>" <= (p + s)[k..]);
    }
  }

  lemma CDataEnds(tail: string, buf: string, b0: char, b1: char)
    ensures TextFrom("]]>" + tail, AtCData, buf, b0, b1) == Checked(buf, tail)
  {
    TwoBrackets(tail, AtCData, buf, b0, b1);
    assert (">" + tail)[1..] == tail && (buf + "]" + "]")[..|buf|] == buf;
  }

  lemma TwoBrackets(tail: string, ending: Ending, buf: string, b0: char, b1: char)
    requires ending.AtQuote? ==> ending.quote != ']'
    ensures TextFrom("]]>" + tail, ending, buf, b0, b1) == TextFrom(">" + tail, ending, buf + "]" + "]", ']', ']')
  {
    assert ("]]>" + tail)[1..] == "]>" + tail;
    assert TextFrom("]]>" + tail, ending, buf, b0, b1) == TextFrom("]>" + tail, ending, buf + "]", b1, ']');
    assert ("]>" + tail)[1..] == ">" + tail;
  }

  /** The characters of section 2.2 of XML 1.0; a code point is never a surrogate. */
  lemma RangeIsXmls(c: char)
    ensures InCharacterRange(c) <==>
      || c in {'\t', '\n', '\r'} || ' ' <= c <= '\U{D7FF}' || '\U{E000}' <= c <= '\U{FFFD}' || '\U{10000}' <= c
  {
  }

  /** What is written has nothing in it that could be taken for markup, and only characters that
      XML allows; in an attribute no white space but blanks. */
  lemma {:induction false} EscapedIsSafe(s: string, escapeNewline: bool)
    ensures forall c <- Escaped(s, escapeNewline) ::
      && c !in {'<', '>', '"', '\'', '\t', '\r'} && (escapeNewline ==> c != '\n') && InCharacterRange(c)
  {
    if s == "" {
    } else {
      EscapedIsSafe(s[1..], escapeNewline);
      assert Escaped(s, escapeNewline) == Written(s[0], escapeNewline) + Escaped(s[1..], escapeNewline);
      assert forall c <- Written(s[0], escapeNewline) ::
        c !in {'<', '>', '"', '\'', '\t', '\r'} && (escapeNewline ==> c != '\n') && InCharacterRange(c);
    }
  }

  /** One digit before something that is none. */
  lemma OneDigit(d: char, rest: string, base: nat, start: nat)
    requires DigitValue(d, base).Some? && rest != "" && DigitValue(rest[0], base).None?
    ensures Digits([d] + rest, base, start) == (1, start * base + DigitValue(d, base).value)
  {
    assert ([d] + rest)[1..] == rest;
  }

  lemma TwoDigits(c: char, d: char, rest: string)
    requires DigitValue(c, 10).Some? && DigitValue(d, 10).Some? && rest != "" && DigitValue(rest[0], 10).None?
    ensures Digits([c] + ([d] + rest), 10, 0) == (2, DigitValue(c, 10).value * 10 + DigitValue(d, 10).value)
  {
    OneDigit(d, rest, 10, DigitValue(c, 10).value);
    assert ([c] + ([d] + rest))[1..] == [d] + rest;
  }

  lemma DecimalReadsBack(c: char, d: char, rest: string)
    requires DigitValue(c, 10).Some? && DigitValue(d, 10).Some?
    ensures var s := ['#', c, d, ';'] + rest;
      Reference(s) == Some((FromRune(DigitValue(c, 10).value * 10 + DigitValue(d, 10).value), rest))
  {
    var s := ['#', c, d, ';'] + rest;
    TwoDigits(c, d, [';'] + rest);
    assert s[1..] == [c] + ([d] + ([';'] + rest));
    assert s[4..] == rest;
    hide Digits;
  }

  lemma HexReadsBack(d: char, rest: string)
    requires DigitValue(d, 16).Some?
    ensures var s := ['#', 'x', d, ';'] + rest;
      Reference(s) == Some((FromRune(DigitValue(d, 16).value), rest))
  {
    var s := ['#', 'x', d, ';'] + rest;
    OneDigit(d, [';'] + rest, 16, 0);
    assert s[2..] == [d] + ([';'] + rest);
    assert s[4..] == rest;
    hide Digits;
  }

  lemma Cut(s: string, c: char, t: string)
    ensures (s + [c] + t)[..|s|] == s && (s + [c] + t)[|s| + 1..] == t
  {
  }

  /** Each of the escapes that are references is read back as the character it stands for. */
  lemma ReferenceReadsBack(c: char, rest: string)
    requires Escape(c, true).Some? && InCharacterRange(c)
    ensures var e := Escape(c, true).value;
      |e| > 1 && e[0] == '&' && Reference(e[1..] + rest) == Some((c, rest))
  {
    hide Reference;
    var e := Escape(c, true).value;
    if c == '"' || c == '\'' {
      assert e[1..] == ['#', '3', if c == '"' then '4' else '9', ';'];
      DecimalReadsBack('3', if c == '"' then '4' else '9', rest);
    } else if c == '&' {
      assert e[1..] == "amp;";
      FiveNames(rest);
    } else if c == '<' {
      assert e[1..] == "lt;";
      FiveNames(rest);
    } else if c == '>' {
      assert e[1..] == "gt;";
      FiveNames(rest);
    } else {
      var d := if c == '\t' then '9' else if c == '\n' then 'A' else 'D';
      assert e[1..] == ['#', 'x', d, ';'];
      HexReadsBack(d, rest);
    }
  }

  lemma {:induction false} NameIsRead(name: string, rest: string)
    requires forall c <- name :: IsNameChar(c)
    ensures NameLength(name + ";" + rest) == |name|
  {
    if name == "" {
    } else {
      assert name[0] in name;
      NameIsRead(name[1..], rest);
      assert (name + ";" + rest)[1..] == name[1..] + ";" + rest;
    }
  }

  /** A double quote and a single quote are what can enclose an attribute value. */
  predicate Escapable(ending: Ending) {
    ending.AtMarkup? || (ending.AtQuote? && (ending.quote == '"' || ending.quote == '\''))
  }

  function Written(c: char, escapeNewline: bool): string {
    var e := Escape(c, escapeNewline);
    if e.Some? then e.value else [c]
  }

  /** What is written for a character adds that character to what is read, if what was read
      before it was no carriage return; and that stays so. */
  lemma CharacterReadsBack(c: char, escapeNewline: bool, rest: string, ending: Ending, buf: string, b0: char, b1: char)
    returns (d0: char, d1: char)
    requires Escapable(ending) && b1 != '\r'
    ensures d1 != '\r'
    ensures TextFrom(Written(c, escapeNewline) + rest, ending, buf, b0, b1)
         == TextFrom(rest, ending, buf + [Allowed(c)], d0, d1)
  {
    hide Reference;
    var w := Written(c, escapeNewline);
    if Escape(c, escapeNewline).Some? && InCharacterRange(c) {
      ReferenceReadsBack(c, rest);
      assert (w + rest)[1..] == w[1..] + rest;
      return NUL, NUL;
    }
    assert w == [Allowed(c)];
    assert (w + rest)[1..] == rest;
    return b1, Allowed(c);
  }

  lemma EscapedStep(s: string, escapeNewline: bool)
    ensures s != "" ==> Escaped(s, escapeNewline) == Written(s[0], escapeNewline) + Escaped(s[1..], escapeNewline)
  {
  }

  lemma {:induction false} EscapedReadsBack(s: string, escapeNewline: bool, tail: string, ending: Ending,
                                            buf: string, b0: char, b1: char)
    returns (d0: char, d1: char)
    requires Escapable(ending) && b1 != '\r'
    ensures TextFrom(Escaped(s, escapeNewline) + tail, ending, buf, b0, b1)
         == TextFrom(tail, ending, buf + AllAllowed(s), d0, d1)
    ensures d1 != '\r'
  {
    hide Escape, TextFrom, Allowed, Escapable, Written;
    d0, d1 := b0, b1;
    EscapedStep(s, escapeNewline);
    if s == "" {
      assert Escaped(s, escapeNewline) + tail == tail && buf + AllAllowed(s) == buf;
    } else {
      var rest := Escaped(s[1..], escapeNewline) + tail;
      d0, d1 := CharacterReadsBack(s[0], escapeNewline, rest, ending, buf, b0, b1);
      assert Escaped(s, escapeNewline) + tail == Written(s[0], escapeNewline) + rest;
      d0, d1 := EscapedReadsBack(s[1..], escapeNewline, tail, ending, buf + [Allowed(s[0])], d0, d1);
      assert buf + [Allowed(s[0])] + AllAllowed(s[1..]) == buf + AllAllowed(s);
    }
  }

  /** Escaped character data, up to markup or the end, is read back as it was, with what XML
      does not allow replaced; in both newline modes. */
  lemma TextRoundTrip(s: string, escapeNewline: bool, tail: string)
    requires tail == "" || tail[0] == '<'
    ensures TextFrom(Escaped(s, escapeNewline) + tail, AtMarkup, "", NUL, NUL) == Some((AllAllowed(s), tail))
    ensures AllInRange(s) ==> AllAllowed(s) == s
  {
    var _, _ := EscapedReadsBack(s, escapeNewline, tail, AtMarkup, "", NUL, NUL);
    assert "" + AllAllowed(s) == AllAllowed(s);
  }

  /** So is an attribute value inside quotes of either kind. */
  lemma QuotedRoundTrip(s: string, quote: char, tail: string)
    requires quote == '"' || quote == '\''
    ensures TextFrom(Escaped(s, true) + [quote] + tail, AtQuote(quote), "", NUL, NUL) == Some((AllAllowed(s), tail))
    ensures AllInRange(s) ==> AllAllowed(s) == s
  {
    var _, _ := EscapedReadsBack(s, true, [quote] + tail, AtQuote(quote), "", NUL, NUL);
    assert Escaped(s, true) + [quote] + tail == Escaped(s, true) + ([quote] + tail);
    assert ([quote] + tail)[1..] == tail;
    assert "" + AllAllowed(s) == AllAllowed(s);
  }

  lemma {:induction false} ReadIsAllowed(s: string, ending: Ending, buf: string, b0: char, b1: char)
    ensures var r := TextFrom(s, ending, buf, b0, b1); r.Some? ==> AllInRange(r.value.0)
    decreases |s|
  {
    hide Reference, NormalizeLine;
    if s == "" {
    } else {
      var b, rest := s[0], s[1..];
      ReadIsAllowed(rest, ending, NormalizeLine(buf, b1, b), b1, b);
      if Reference(rest).Some? {
        var (c, left) := Reference(rest).value;
        ReadIsAllowed(left, ending, buf + [c], NUL, NUL);
      }
    }
  }

  /** Whatever the decoder accepts as text, CDATA included, survives being written and read again. */
  lemma ReadWriteRead(s: string, ending: Ending, escapeNewline: bool)
    ensures var r := TextFrom(s, ending, "", NUL, NUL);
      r.Some? ==> TextFrom(Escaped(r.value.0, escapeNewline), AtMarkup, "", NUL, NUL) == Some((r.value.0, ""))
  {
    var r := TextFrom(s, ending, "", NUL, NUL);
    ReadIsAllowed(s, ending, "", NUL, NUL);
    if r.Some? {
      TextRoundTrip(r.value.0, escapeNewline, "");
      assert Escaped(r.value.0, escapeNewline) + "" == Escaped(r.value.0, escapeNewline);
    }
  }
}
