/**
 The textual state files: UTF-8, whitespace-separated words, decimal and
 hexadecimal numbers, as Rust's standard library reads and prints them.
 */
module Text {
  import opened Prelude
  import opened ByteStrings

  predicate IsAscii(s: string) {
    forall i | 0 <= i < |s| :: s[i] as int < 128
  }

  function AsciiBytes(s: string): (b: Bytes)
    requires IsAscii(s)
    ensures |b| == |s|
    ensures forall i :: 0 <= i < |s| ==> b[i] == s[i] as int && b[i] < 128
  {
    seq(|s|, i requires 0 <= i < |s| && s[i] as int < 128 => s[i] as int as byte)
  }

  lemma AsciiAppend(a: string, b: string)
    requires IsAscii(a) && IsAscii(b)
    ensures IsAscii(a + b)
  {
  }

  function DecodeAscii(b: Bytes): (r: Option<string>)
    ensures forall s | IsAscii(s) && AsciiBytes(s) == b :: r == Some(s)
  {
    if forall i | 0 <= i < |b| :: b[i] < 128
    then
      var text := seq(|b|, i requires 0 <= i < |b| && b[i] < 128 => b[i] as char);
      assert forall s | IsAscii(s) && AsciiBytes(s) == b :: s == text by {
        forall s | IsAscii(s) && AsciiBytes(s) == b ensures s == text {
          assert |s| == |text| && forall i | 0 <= i < |s| :: s[i] == text[i];
        }
      }
      Some(text)
    else None
  }

  /** A UTF-8 decoder. Only its behaviour on ASCII is assumed. */
  type Utf8 = f: Bytes -> Option<string> |
    (forall s | IsAscii(s) :: f(AsciiBytes(s)) == Some(s))
    witness DecodeAscii

  /** The White_Space property, by which `split_whitespace` separates words. */
  predicate IsWhite(c: char) {
    var x := c as int;
    9 <= x <= 13 || x == 0x20 || x == 0x85 || x == 0xA0 || x == 0x1680 || 0x2000 <= x <= 0x200A
    || x == 0x2028 || x == 0x2029 || x == 0x202F || x == 0x205F || x == 0x3000
  }

  predicate IsWord(s: string) {
    s != [] && forall c <- s :: !IsWhite(c)
  }

  function WordEnd(s: string): (n: nat)
    ensures n <= |s|
    ensures forall i :: 0 <= i < n ==> !IsWhite(s[i])
    ensures n < |s| ==> IsWhite(s[n])
  {
    if s == [] || IsWhite(s[0]) then 0 else 1 + WordEnd(s[1..])
  }

  /** `s.split_whitespace()` */
  function Words(s: string): seq<string> {
    if s == [] then []
    else if IsWhite(s[0]) then Words(s[1..])
    else [s[..WordEnd(s)]] + Words(s[WordEnd(s)..])
  }

  lemma WordsFirst(w: string, rest: string)
    requires IsWord(w)
    requires rest == [] || IsWhite(rest[0])
    ensures Words(w + rest) == [w] + Words(rest)
  {
    var s := w + rest;
    var n := WordEnd(s);
    assert rest != [] ==> s[|w|] == rest[0];
    if n < |w| {
      assert false;
    }
    if n > |w| {
      assert false;
    }
    assert s[..n] == w && s[n..] == rest;
  }

  /** What a printed two-word line is read back as. */
  lemma WordsOfLine(a: string, b: string)
    requires IsWord(a) && IsWord(b)
    ensures Words(a + " " + b + "\n") == [a, b]
  {
    hide Words;
    var line := " " + (b + "\n");
    WordsFirst(b, "\n");
    WordsAfterWhite("\n", "");
    NoWords();
    assert "\n" + "" == "\n";
    WordsAfterWhite(" ", b + "\n");
    WordsFirst(a, line);
    assert a + " " + b + "\n" == a + line;
  }

  lemma NoWords()
    ensures Words("") == []
  {
  }

  predicate AllWhite(s: string) {
    forall i | 0 <= i < |s| :: IsWhite(s[i])
  }

  /** Words between runs of white space, of which only the first and the last may be empty. */
  predicate Spaced(words: seq<string>, gaps: seq<string>) {
    && |gaps| == |words| + 1
    && (forall i | 0 <= i < |words| :: IsWord(words[i]))
    && (forall i | 0 <= i < |gaps| :: AllWhite(gaps[i]))
    && (forall i | 0 < i < |words| :: gaps[i] != "")
  }

  function Woven(words: seq<string>, gaps: seq<string>): string
    requires |gaps| == |words| + 1
  {
    if words == [] then gaps[0] else gaps[0] + (words[0] + Woven(words[1..], gaps[1..]))
  }

  lemma {:induction false} WordsAfterWhite(white: string, rest: string)
    requires AllWhite(white)
    ensures Words(white + rest) == Words(rest)
  {
    if white == [] {
      assert white + rest == rest;
    } else {
      assert (white + rest)[1..] == white[1..] + rest;
      WordsAfterWhite(white[1..], rest);
    }
  }

  /** Splitting finds the words, however they are spaced. */
  lemma {:induction false} WordsOfWoven(words: seq<string>, gaps: seq<string>)
    requires Spaced(words, gaps)
    ensures Words(Woven(words, gaps)) == words
  {
    if words == [] {
      WordsAfterWhite(gaps[0], "");
      assert gaps[0] + "" == gaps[0];
    } else {
      var rest := Woven(words[1..], gaps[1..]);
      WordsAfterWhite(gaps[0], words[0] + rest);
      WovenStartsWhite(words[1..], gaps[1..]);
      WordsOfWoven(words[1..], gaps[1..]);
      WordsFirst(words[0], rest);
    }
  }

  lemma WovenStartsWhite(words: seq<string>, gaps: seq<string>)
    requires |gaps| == |words| + 1 && AllWhite(gaps[0]) && (words != [] ==> gaps[0] != "")
    ensures Woven(words, gaps) == "" || IsWhite(Woven(words, gaps)[0])
  {
  }

  /** And every text is its words, spaced in some way. */
  lemma {:induction false} TextIsWoven(s: string) returns (gaps: seq<string>)
    ensures Spaced(Words(s), gaps) && s == Woven(Words(s), gaps)
    ensures s != "" && !IsWhite(s[0]) ==> gaps[0] == ""
    decreases |s|
  {
    if s == "" {
      gaps := [""];
    } else if IsWhite(s[0]) {
      var rest := TextIsWoven(s[1..]);
      gaps := [[s[0]] + rest[0]] + rest[1..];
      WiderGap(s[0], Words(s[1..]), rest);
    } else {
      var n := WordEnd(s);
      var rest := TextIsWoven(s[n..]);
      gaps := [""] + rest;
      FirstWord(s, rest);
    }
  }

  lemma WiderGap(c: char, words: seq<string>, gaps: seq<string>)
    requires IsWhite(c) && Spaced(words, gaps)
    ensures var wider := [[c] + gaps[0]] + gaps[1..];
      Spaced(words, wider) && Woven(words, wider) == [c] + Woven(words, gaps)
  {
    var wider := [[c] + gaps[0]] + gaps[1..];
    assert wider[1..] == gaps[1..];
    if words != [] {
      var rest := words[0] + Woven(words[1..], gaps[1..]);
      assert [c] + gaps[0] + rest == [c] + (gaps[0] + rest);
    }
  }

  lemma FirstWord(s: string, rest: seq<string>)
    requires s != "" && !IsWhite(s[0])
    requires var n := WordEnd(s); Spaced(Words(s[n..]), rest) && s[n..] == Woven(Words(s[n..]), rest)
    ensures Spaced(Words(s), [""] + rest) && s == Woven(Words(s), [""] + rest)
  {
    hide Spaced, Woven;
    var n := WordEnd(s);
    var later := Words(s[n..]);
    if later != [] {
      GapBeforeWord(later, rest);
    }
    MoreWords(s[..n], later, rest);
    assert s == s[..n] + s[n..];
  }

  lemma GapBeforeWord(words: seq<string>, gaps: seq<string>)
    requires Spaced(words, gaps) && words != [] && Woven(words, gaps) != "" && IsWhite(Woven(words, gaps)[0])
    ensures gaps[0] != ""
  {
    var front := gaps[0] + words[0];
    assert Woven(words, gaps) == front + Woven(words[1..], gaps[1..]);
    assert words[0][0] in words[0];
  }

  lemma MoreWords(word: string, words: seq<string>, gaps: seq<string>)
    requires IsWord(word) && Spaced(words, gaps) && (words != [] ==> gaps[0] != "")
    ensures Spaced([word] + words, [""] + gaps)
    ensures Woven([word] + words, [""] + gaps) == word + Woven(words, gaps)
  {
    assert ([word] + words)[1..] == words && ([""] + gaps)[1..] == gaps;
    assert "" + (word + Woven(words, gaps)) == word + Woven(words, gaps);
  }

  /** A text splits into some words exactly if it is those words, spaced in some way. */
  lemma WordsExactly(s: string, words: seq<string>)
    ensures Words(s) == words <==> exists gaps :: Spaced(words, gaps) && s == Woven(words, gaps)
  {
    hide Words, Woven;
    if Words(s) == words {
      var gaps := TextIsWoven(s);
    }
    forall gaps | Spaced(words, gaps) && s == Woven(words, gaps)
      ensures Words(s) == words
    {
      WordsOfWoven(words, gaps);
    }
  }

  predicate IsDigit(c: char) {
    '0' <= c <= '9'
  }

  function Digits(s: string): nat
    requires forall c <- s :: IsDigit(c)
  {
    if s == [] then 0
    else assert IsDigit(s[|s| - 1]); 10 * Digits(s[..|s| - 1]) + (s[|s| - 1] as int - '0' as int)
  }

  /** `s.parse::<uN>()`: an optional plus sign, then decimal digits within range. */
  function ParseUnsigned(s: string, max: nat): Option<nat> {
    var digits := if s != [] && s[0] == '+' then s[1..] else s;
    if digits == [] || !(forall c <- digits :: IsDigit(c)) then None
    else if Digits(digits) > max then None
    else Some(Digits(digits))
  }

  /** Decimal without leading zeros. */
  function Decimal(n: nat): (s: string)
    ensures s != []
    ensures forall c <- s :: IsDigit(c)
  {
    if n < 10 then [('0' as int + n) as char]
    else Decimal(n / 10) + [('0' as int + n % 10) as char]
  }

  lemma {:induction false} DigitsOfDecimal(n: nat)
    ensures Digits(Decimal(n)) == n
  {
    var s := Decimal(n);
    if n < 10 {
      assert s[..0] == [];
    } else {
      DigitsOfDecimal(n / 10);
      assert s[..|s| - 1] == Decimal(n / 10);
    }
  }

  lemma ParseOfDecimal(n: nat, max: nat)
    requires n <= max
    ensures ParseUnsigned(Decimal(n), max) == Some(n)
    ensures IsWord(Decimal(n)) && IsAscii(Decimal(n)) && Decimal(n) != "none"
  {
    DigitsOfDecimal(n);
    var s := Decimal(n);
    assert s[0] in s;
    assert 'n' in "none" by { assert "none"[0] == 'n'; }
  }

  /** n zeros. */
  function ZeroDigits(n: nat): (s: string)
    ensures |s| == n && forall i | 0 <= i < n :: s[i] == '0'
  {
    seq(n, _ => '0')
  }

  lemma {:induction false} DigitsAfterZeros(n: nat, s: string)
    requires forall c <- s :: IsDigit(c)
    ensures (forall c <- ZeroDigits(n) + s :: IsDigit(c)) && Digits(ZeroDigits(n) + s) == Digits(s)
    decreases |s|
  {
    if s == "" {
      assert ZeroDigits(n) + s == ZeroDigits(n);
      OnlyZeros(n);
    } else {
      var k := |s| - 1;
      DigitsAfterZeros(n, s[..k]);
      assert (ZeroDigits(n) + s)[..n + k] == ZeroDigits(n) + s[..k];
    }
  }

  lemma {:induction false} OnlyZeros(n: nat)
    ensures (forall c <- ZeroDigits(n) :: IsDigit(c)) && Digits(ZeroDigits(n)) == 0
  {
    if n > 0 {
      OnlyZeros(n - 1);
      assert ZeroDigits(n)[..n - 1] == ZeroDigits(n - 1);
    }
  }

  lemma DigitsStep(s: string, c: char)
    requires (forall d <- s :: IsDigit(d)) && IsDigit(c)
    ensures (forall d <- s + [c] :: IsDigit(d)) && Digits(s + [c]) == 10 * Digits(s) + (c as int - '0' as int)
  {
    assert (s + [c])[..|s|] == s;
  }

  lemma DecimalStep(n: nat, c: char)
    requires IsDigit(c)
    ensures Decimal(10 * n + (c as int - '0' as int)) == (if n == 0 then "" else Decimal(n)) + [c]
  {
    assert "" + [c] == [c];
  }

  /** Any digits are the decimal form of their value behind some zeros. */
  lemma {:induction false} DigitsAreDecimal(s: string) returns (zeros: nat)
    requires s != "" && forall c <- s :: IsDigit(c)
    ensures s == ZeroDigits(zeros) + Decimal(Digits(s))
    decreases |s|
  {
    hide Digits, Decimal;
    var front, c := s[..|s| - 1], s[|s| - 1];
    assert c in s && s == front + [c];
    DigitsStep(front, c);
    DecimalStep(Digits(front), c);
    if front == "" {
      zeros := 0;
      OnlyZeros(0);
      assert front == ZeroDigits(0);
    } else {
      zeros := DigitsAreDecimal(front);
      if Digits(front) == 0 {
        DecimalStep(0, '0');
        zeros := zeros + 1;
        assert front == ZeroDigits(zeros);
      }
    }
  }

  /** A number is accepted exactly as its decimal form within range, behind any zeros and one optional plus. */
  lemma ParseUnsignedExactly(s: string, max: nat, n: nat)
    ensures ParseUnsigned(s, max) == Some(n) <==>
      n <= max && exists zeros ::
        s == ZeroDigits(zeros) + Decimal(n) || s == "+" + (ZeroDigits(zeros) + Decimal(n))
  {
    hide Digits, Decimal;
    var digits := if s != [] && s[0] == '+' then s[1..] else s;
    if digits != [] && forall c <- digits :: IsDigit(c) {
      var zeros := DigitsAreDecimal(digits);
      assert s == digits || s == "+" + digits;
    }
    forall zeros | s == ZeroDigits(zeros) + Decimal(n) || s == "+" + (ZeroDigits(zeros) + Decimal(n))
      ensures digits == ZeroDigits(zeros) + Decimal(n)
      ensures digits != [] && (forall c <- digits :: IsDigit(c)) && Digits(digits) == n
    {
      var d := ZeroDigits(zeros) + Decimal(n);
      DigitsOfDecimal(n);
      DigitsAfterZeros(zeros, Decimal(n));
      assert d[0] in d && IsDigit(d[0]);
    }
  }

  function HexDigit(x: nat): char
    requires x < 16
  {
    if x < 10 then ('0' as int + x) as char else ('a' as int + (x - 10)) as char
  }

  /** Lower-case hexadecimal, two digits a byte. */
  function Hex(b: Bytes): (s: string)
    ensures |s| == 2 * |b|
    ensures forall c <- s :: '0' <= c <= '9' || 'a' <= c <= 'f'
  {
    if b == [] then [] else [HexDigit(b[0] / 16), HexDigit(b[0] % 16)] + Hex(b[1..])
  }

  function HexValue(c: char): int {
    if c <= '9' then c as int - '0' as int else c as int - 'a' as int + 10
  }

  /** Byte `i` is what its two digits say, the high one first. */
  lemma {:induction false} HexAt(b: Bytes, i: nat)
    requires i < |b|
    ensures 16 * HexValue(Hex(b)[2 * i]) + HexValue(Hex(b)[2 * i + 1]) == b[i]
    decreases i
  {
    if i > 0 {
      HexAt(b[1..], i - 1);
      assert Hex(b)[2..] == Hex(b[1..]);
      assert Hex(b)[2 * i] == Hex(b[1..])[2 * (i - 1)] && Hex(b)[2 * i + 1] == Hex(b[1..])[2 * (i - 1) + 1];
    }
  }

  lemma HexIsWord(b: Bytes)
    requires b != []
    ensures IsWord(Hex(b)) && IsAscii(Hex(b))
  {
    var s := Hex(b);
    hide Hex;
    assert forall i | 0 <= i < |s| :: s[i] in s;
  }

  /** Printing is faithful: a foreign fingerprint never reads as one's own. */
  lemma {:induction false} HexInjective(a: Bytes, b: Bytes)
    requires Hex(a) == Hex(b)
    ensures a == b
  {
    assert |Hex(a)| == |Hex(b)|;
    if a != [] {
      assert Hex(a)[0] == HexDigit(a[0] / 16) && Hex(a)[1] == HexDigit(a[0] % 16);
      assert Hex(b)[0] == HexDigit(b[0] / 16) && Hex(b)[1] == HexDigit(b[0] % 16);
      assert Hex(a)[2..] == Hex(a[1..]) && Hex(b)[2..] == Hex(b[1..]);
      HexInjective(a[1..], b[1..]);
      assert a == [a[0]] + a[1..] && b == [b[0]] + b[1..];
    }
  }
}
