/** The string primitives the header reader is built from: UTF-8
    validation (`from_utf8`), `char::is_whitespace`, `split_whitespace`,
    `replace(c, "")`, `to_lowercase`, and `parse` into `usize` and `bool`.
    `usize` is 64 bits wide. */
module Text {
  import opened Outcomes
  import opened Bytes

  const UsizeMax: nat := 0xFFFF_FFFF_FFFF_FFFF

  /** A continuation byte 10xxxxxx within [lo, hi]. */
  predicate ContIn(b: byte, lo: int, hi: int)
  {
    lo <= b as int <= hi
  }

  /** The first character of well-formed UTF-8 and its length in bytes, or
      None when the bytes do not start with a well-formed sequence (overlong
      forms, surrogates and code points above U+10FFFF are ill-formed). */
  function Utf8Char(b: seq<byte>): (r: Option<(char, nat)>)
    requires |b| > 0
    ensures r.Some? ==> 1 <= r.value.1 <= |b| && r.value.1 <= 4
    ensures r.Some? && r.value.1 == 1 <==> b[0] < 0x80
  {
    var b0 := b[0] as int;
    if b0 < 0x80 then Some((b0 as char, 1))
    else if 0xC2 <= b0 <= 0xDF then
      if |b| >= 2 && ContIn(b[1], 0x80, 0xBF)
      then Some((((b0 - 0xC0) * 0x40 + (b[1] as int - 0x80)) as char, 2))
      else None
    else if 0xE0 <= b0 <= 0xEF then
      var lo := if b0 == 0xE0 then 0xA0 else 0x80;
      var hi := if b0 == 0xED then 0x9F else 0xBF;
      if |b| >= 3 && ContIn(b[1], lo, hi) && ContIn(b[2], 0x80, 0xBF)
      then Some((((b0 - 0xE0) * 0x1000 + (b[1] as int - 0x80) * 0x40 + (b[2] as int - 0x80)) as char, 3))
      else None
    else if 0xF0 <= b0 <= 0xF4 then
      var lo := if b0 == 0xF0 then 0x90 else 0x80;
      var hi := if b0 == 0xF4 then 0x8F else 0xBF;
      if |b| >= 4 && ContIn(b[1], lo, hi) && ContIn(b[2], 0x80, 0xBF) && ContIn(b[3], 0x80, 0xBF)
      then Some((((b0 - 0xF0) * 0x40000 + (b[1] as int - 0x80) * 0x1000
                  + (b[2] as int - 0x80) * 0x40 + (b[3] as int - 0x80)) as char, 4))
      else None
    else None
  }

  /** `from_utf8`: the decoded text, or None when the bytes are not UTF-8. */
  function Utf8Decode(b: seq<byte>): (r: Option<string>)
    ensures r.Some? ==> |r.value| <= |b|
    decreases |b|
  {
    if b == [] then Some([])
    else match Utf8Char(b)
      case None => None
      case Some((c, n)) =>
        match Utf8Decode(b[n..])
        case None => None
        case Some(rest) => Some([c] + rest)
  }

  /** ASCII text is one byte per character: decoding its bytes gives it back. */
  lemma {:induction false} Utf8DecodeAscii(s: string)
    requires forall i :: 0 <= i < |s| ==> s[i] as int < 128
    ensures Utf8Decode(Ascii(s)) == Some(s)
  {
    if s != [] {
      var b := Ascii(s);
      assert b[1..] == Ascii(s[1..]);
      assert (b[0] as int) as char == s[0];
      assert Utf8Char(b) == Some((s[0], 1));
      Utf8DecodeAscii(s[1..]);
      assert s == [s[0]] + s[1..];
    }
  }

  /** `char::is_whitespace`: the Unicode White_Space property. */
  predicate IsWhitespace(c: char)
  {
    ('\t' <= c <= '\r') || c == ' ' || c == '\U{0085}' || c == '\U{00A0}' ||
    c == '\U{1680}' || ('\U{2000}' <= c <= '\U{200A}') || c == '\U{2028}' ||
    c == '\U{2029}' || c == '\U{202F}' || c == '\U{205F}' || c == '\U{3000}'
  }

  /** A non-empty run of non-whitespace characters. */
  predicate IsWord(w: string)
  {
    |w| > 0 && forall i :: 0 <= i < |w| ==> !IsWhitespace(w[i])
  }

  /** Length of the leading run of non-whitespace characters. */
  function WordLen(s: string): (n: nat)
    ensures n <= |s|
    ensures forall i :: 0 <= i < n ==> !IsWhitespace(s[i])
    ensures n == |s| || IsWhitespace(s[n])
  {
    if s == [] || IsWhitespace(s[0]) then 0 else 1 + WordLen(s[1..])
  }

  /** `split_whitespace`: the maximal runs of non-whitespace characters. */
  function SplitWhitespace(s: string): (toks: seq<string>)
    ensures forall i :: 0 <= i < |toks| ==> IsWord(toks[i])
    decreases |s|
  {
    if s == [] then []
    else if IsWhitespace(s[0]) then SplitWhitespace(s[1..])
    else
      var n := WordLen(s);
      [s[..n]] + SplitWhitespace(s[n..])
  }

  /** Words joined by single spaces and followed by whitespace split back
      into those words. */
  lemma {:induction false} SplitJoined(words: seq<string>, tail: string)
    requires forall i :: 0 <= i < |words| ==> IsWord(words[i])
    requires forall i :: 0 <= i < |tail| ==> IsWhitespace(tail[i])
    ensures SplitWhitespace(Join(words) + tail) == words
    decreases |words|
  {
    if words == [] {
      assert Join(words) + tail == tail;
      SplitBlank(tail);
    } else {
      var w := words[0];
      var rest := Join(words[1..]) + tail;
      assert Join(words) + tail == w + ([' '] + rest);
      SplitWord(w, rest);
      SplitJoined(words[1..], tail);
      assert [w] + words[1..] == words;
    }
  }

  /** A word, a space and more text split into the word and the words of
      the rest. */
  lemma SplitWord(w: string, rest: string)
    requires IsWord(w)
    ensures SplitWhitespace(w + ([' '] + rest)) == [w] + SplitWhitespace(rest)
  {
    var s := w + ([' '] + rest);
    WordLenOfWord(w, [' '] + rest);
    assert s[..|w|] == w;
    assert s[|w|..] == [' '] + rest;
    assert ([' '] + rest)[1..] == rest;
  }

  /** Whitespace alone holds no words. */
  lemma {:induction false} SplitBlank(t: string)
    requires forall i :: 0 <= i < |t| ==> IsWhitespace(t[i])
    ensures SplitWhitespace(t) == []
    decreases |t|
  {
    if t != [] {
      SplitBlank(t[1..]);
    }
  }

  /** A word followed by a whitespace character is the leading word. */
  lemma {:induction false} WordLenOfWord(w: string, rest: string)
    requires IsWord(w) && |rest| > 0 && IsWhitespace(rest[0])
    ensures WordLen(w + rest) == |w|
    decreases |w|
  {
    if |w| > 1 {
      assert (w + rest)[1..] == w[1..] + rest;
      WordLenOfWord(w[1..], rest);
    } else {
      assert (w + rest)[1..] == rest;
    }
  }

  /** Each word followed by one space. */
  function Join(words: seq<string>): string
  {
    if words == [] then [] else words[0] + [' '] + Join(words[1..])
  }

  /** `s.replace(c, "")`: `s` with every `c` removed. */
  function Remove(s: string, c: char): (r: string)
    ensures forall i :: 0 <= i < |r| ==> r[i] != c
    ensures |r| <= |s|
  {
    if s == [] then [] else (if s[0] == c then [] else [s[0]]) + Remove(s[1..], c)
  }

  /** Removing a character distributes over concatenation. */
  lemma {:induction false} RemoveAppend(a: string, b: string, c: char)
    ensures Remove(a + b, c) == Remove(a, c) + Remove(b, c)
    decreases |a|
  {
    if a == [] {
      assert a + b == b;
    } else {
      assert (a + b)[1..] == a[1..] + b;
      RemoveAppend(a[1..], b, c);
    }
  }

  /** Removing one character keeps out any character that was absent. */
  lemma {:induction false} RemoveKeepsAbsent(s: string, c: char, d: char)
    requires d !in s
    ensures d !in Remove(s, c)
    decreases |s|
  {
    if s != [] {
      assert d !in s[1..];
      RemoveKeepsAbsent(s[1..], c, d);
    }
  }

  /** Removing a character that does not occur changes nothing. */
  lemma {:induction false} RemoveAbsent(s: string, c: char)
    requires forall i :: 0 <= i < |s| ==> s[i] != c
    ensures Remove(s, c) == s
    decreases |s|
  {
    if s != [] {
      RemoveAbsent(s[1..], c);
    }
  }

  /** `to_lowercase` on ASCII letters. Other characters are kept: no other
      character lowercases to one of the letters of "true" or "false", so
      the `bool` parse that follows it decides the same way. */
  function AsciiLower(s: string): (r: string)
    ensures |r| == |s|
    ensures forall i :: 0 <= i < |s| ==> r[i] == LowerChar(s[i])
  {
    if s == [] then [] else [LowerChar(s[0])] + AsciiLower(s[1..])
  }

  /** One character lowercased: an ASCII capital becomes its small letter,
      which is no capital; every other character is kept. */
  function LowerChar(c: char): (l: char)
    ensures !('A' <= l <= 'Z')
    ensures !('A' <= c <= 'Z') ==> l == c
    ensures 'A' <= c <= 'Z' ==> l as int == c as int + 32
  {
    if 'A' <= c <= 'Z' then (c as int + 32) as char else c
  }

  /** `str::parse::<bool>`: exactly "true" and "false". */
  function ParseBool(s: string): (r: Option<bool>)
    ensures r == Some(true) <==> s == "true"
    ensures r == Some(false) <==> s == "false"
  {
    if s == "true" then Some(true) else if s == "false" then Some(false) else None
  }

  predicate IsDigit(c: char)
  {
    '0' <= c <= '9'
  }

  predicate AllDigits(s: string)
  {
    forall i :: 0 <= i < |s| ==> IsDigit(s[i])
  }

  /** The value of a string of decimal digits. */
  function DecimalValue(s: string): nat
    requires AllDigits(s)
  {
    if s == [] then 0 else DecimalValue(s[..|s| - 1]) * 10 + (s[|s| - 1] as int - '0' as int)
  }

  /** `str::parse::<usize>`: an optional `+` then at least one decimal digit,
      with a value that fits 64 bits. */
  function ParseUsize(s: string): (r: Option<nat>)
    ensures r.Some? ==> r.value <= UsizeMax
    ensures r.Some? ==> |s| > 0 && (s[0] == '+' || IsDigit(s[0]))
    ensures r.Some? ==> forall i :: 1 <= i < |s| ==> IsDigit(s[i])
  {
    var digits := if |s| > 0 && s[0] == '+' then s[1..] else s;
    if |digits| == 0 || !AllDigits(digits) then None
    else
      var v := DecimalValue(digits);
      if v <= UsizeMax then Some(v) else None
  }

  /** The decimal digits of a natural number, without leading zeros. */
  function Decimal(n: nat): (s: string)
    ensures |s| > 0 && AllDigits(s)
  {
    if n < 10 then [(n + '0' as int) as char]
    else Decimal(n / 10) + [(n % 10 + '0' as int) as char]
  }

  /** Reading back the decimal digits of a number gives the number. */
  lemma {:induction false} DecimalValueOfDecimal(n: nat)
    ensures DecimalValue(Decimal(n)) == n
  {
    if n >= 10 {
      var s := Decimal(n);
      assert s[..|s| - 1] == Decimal(n / 10);
      DecimalValueOfDecimal(n / 10);
    }
  }

  /** Parsing printed `usize` values gives them back: the two are inverse. */
  lemma ParseUsizeOfDecimal(n: nat)
    requires n <= UsizeMax
    ensures ParseUsize(Decimal(n)) == Some(n)
  {
    DecimalValueOfDecimal(n);
  }
}
