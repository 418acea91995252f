/**
 The capability bitmaps of sysfs: hexadecimal 64-bit words, high word first. The stream
 extraction reads unsigned words without sign or "0x" prefix, as the kernel prints them.
 */
module UdevBitmap {
  import opened Basics
  import opened Text

  const WORD_BITS := 64

  function Pow2(n: nat): nat {
    if n == 0 then 1 else 2 * Pow2(n - 1)
  }

  predicate IsWord(n: nat) {
    n < 0x1_0000_0000_0000_0000
  }

  type word = n: nat | IsWord(n)

  predicate IsSpace(c: char) {
    c == ' ' || c == '\t' || c == '\n' || c == '\r' || c == '\U{000B}' || c == '\U{000C}'
  }

  function HexDigit(c: char): Option<nat> {
    if '0' <= c <= '9' then Some(c as int - '0' as int)
    else if 'a' <= c <= 'f' then Some(c as int - 'a' as int + 10)
    else if 'A' <= c <= 'F' then Some(c as int - 'A' as int + 10)
    else None
  }

  // ----- Reading -----

  /** The length of the longest run of hexadecimal digits at the start. */
  function HexRun(s: string): (n: nat)
    ensures n <= |s|
  {
    if s == "" || HexDigit(s[0]).None? then 0 else 1 + HexRun(s[1..])
  }

  predicate AllHex(s: string) {
    forall i :: 0 <= i < |s| ==> HexDigit(s[i]).Some?
  }

  function HexValue(s: string): nat {
    if s == "" then 0
    else
      match HexDigit(s[|s| - 1])
      case None => 0
      case Some(d) => 16 * HexValue(s[..|s| - 1]) + d
  }

  /** The words the stream yields: it stops at the end, at a character that starts no word, and at a word that overflows. */
  function ReadWords(s: string): seq<word>
    decreases |s|
  {
    if s == "" then []
    else if IsSpace(s[0]) then ReadWords(s[1..])
    else
      var n := HexRun(s);
      var value := HexValue(s[..n]);
      if n == 0 || !IsWord(value) then [] else [value] + ReadWords(s[n..])
  }

  function Reversed(ws: seq<word>): seq<word> {
    if ws == [] then [] else Reversed(ws[1..]) + [ws[0]]
  }

  /** The words of a bitmap, low word first. */
  function BitVector(s: string): seq<word> {
    Reversed(ReadWords(s))
  }

  function Bit(n: nat, i: nat): bool {
    if i == 0 then n % 2 == 1 else Bit(n / 2, i - 1)
  }

  function CheckBit(bits: seq<word>, i: nat): bool {
    i / WORD_BITS < |bits| && Bit(bits[i / WORD_BITS], i % WORD_BITS)
  }

  // ----- The number a bitmap denotes -----

  /** The number whose digits in base 2^64 are the words, the first one the highest. */
  function Denoted(words: seq<word>): nat {
    if words == [] then 0 else Denoted(words[..|words| - 1]) * Pow2(WORD_BITS) + words[|words| - 1]
  }

  lemma Pow2Values()
    ensures Pow2(16) == 0x1_0000 && Pow2(64) == 0x1_0000_0000_0000_0000
  {
    assert Pow2(8) == 256;
    assert Pow2(16) == 256 * Pow2(8) by { Pow2Sum(8, 8); }
    Pow2Sum(16, 16);
    Pow2Sum(32, 32);
  }

  lemma {:induction false} Pow2Sum(a: nat, b: nat)
    ensures Pow2(a + b) == Pow2(a) * Pow2(b)
  {
    if a > 0 {
      Pow2Sum(a - 1, b);
    }
  }

  /** A bit of a number is the digit it has there in base two: the rest is even above it, and smaller below. */
  lemma {:induction false} BitIsDigit(n: nat, i: nat) returns (high: nat, low: nat)
    ensures low < Pow2(i) && n == (2 * high + if Bit(n, i) then 1 else 0) * Pow2(i) + low
  {
    if i == 0 {
      high, low := n / 2, 0;
    } else {
      var half, rest := BitIsDigit(n / 2, i - 1);
      high, low := half, 2 * rest + n % 2;
      Doubled(2 * high + if Bit(n, i) then 1 else 0, Pow2(i - 1), rest);
      assert n == 2 * (n / 2) + n % 2;
    }
  }

  lemma Doubled(x: nat, m: nat, r: nat)
    ensures 2 * (x * m + r) == x * (2 * m) + 2 * r
  {
  }

  lemma {:induction false} ZeroHasNoBits(i: nat)
    ensures !Bit(0, i)
  {
    if i > 0 {
      ZeroHasNoBits(i - 1);
    }
  }

  lemma {:induction false} BitOfSum(low: nat, high: nat, width: nat, i: nat)
    requires low < Pow2(width)
    ensures Bit(high * Pow2(width) + low, i) == if i < width then Bit(low, i) else Bit(high, i - width)
    decreases width
  {
    if width > 0 {
      var shifted := high * Pow2(width - 1);
      assert high * Pow2(width) == 2 * shifted;
      assert (2 * shifted + low) % 2 == low % 2 && (2 * shifted + low) / 2 == shifted + low / 2;
      if i > 0 {
        BitOfSum(low / 2, high, width - 1, i - 1);
      }
    }
  }

  lemma Associates(a: seq<word>, b: seq<word>, c: seq<word>)
    ensures a + (b + c) == (a + b) + c
  {
  }

  lemma {:induction false} ReversedSnoc(ws: seq<word>)
    requires ws != []
    ensures Reversed(ws) == [ws[|ws| - 1]] + Reversed(ws[..|ws| - 1])
  {
    if |ws| > 1 {
      var rest, init := ws[1..], ws[..|ws| - 1];
      ReversedSnoc(rest);
      assert rest[..|rest| - 1] == init[1..];
      Associates([ws[|ws| - 1]], Reversed(init[1..]), [init[0]]);
    }
  }

  lemma {:induction false} ReversedTwice(ws: seq<word>)
    ensures Reversed(Reversed(ws)) == ws && |Reversed(ws)| == |ws|
  {
    if ws != [] {
      ReversedTwice(ws[1..]);
      ReversedSnoc(Reversed(ws));
      assert Reversed(ws)[..|ws| - 1] == Reversed(ws[1..]);
    }
  }

  lemma {:induction false} BitsOfWords(ws: seq<word>, i: nat)
    ensures CheckBit(Reversed(ws), i) <==> Bit(Denoted(ws), i)
  {
    if ws == [] {
      ZeroHasNoBits(i);
    } else {
      var init, last := ws[..|ws| - 1], ws[|ws| - 1];
      Pow2Values();
      ReversedSnoc(ws);
      BitOfSum(last, Denoted(init), WORD_BITS, i);
      if i >= WORD_BITS {
        BitsOfWords(init, i - WORD_BITS);
        assert (i - WORD_BITS) / WORD_BITS == i / WORD_BITS - 1;
      }
    }
  }

  /** A bit of a bitmap is the bit of the number it denotes; past the end there are none. */
  lemma CheckBitIsBitOfNumber(s: string, i: nat)
    ensures CheckBit(BitVector(s), i) <==> Bit(Denoted(ReadWords(s)), i)
    ensures i >= WORD_BITS * |ReadWords(s)| ==> !CheckBit(BitVector(s), i)
  {
    BitsOfWords(ReadWords(s), i);
    ReversedTwice(ReadWords(s));
  }

  // ----- Words written out -----

  /** A word as the kernel may write it: up to sixteen hexadecimal digits. */
  predicate HexWord(s: string) {
    0 < |s| <= 16 && AllHex(s)
  }

  lemma {:induction false} HexBound(s: string)
    ensures HexValue(s) < Pow2(4 * |s|)
  {
    if s != "" {
      HexBound(s[..|s| - 1]);
      assert Pow2(4 * |s|) == 16 * Pow2(4 * |s| - 4) by { Pow2Sum(4, 4 * |s| - 4); assert Pow2(4) == 16; }
    }
  }

  lemma {:induction false} Pow2Monotone(a: nat, b: nat)
    requires a <= b
    ensures Pow2(a) <= Pow2(b)
  {
    if a < b {
      Pow2Monotone(a, b - 1);
    }
  }

  lemma HexWordIsWord(s: string)
    requires HexWord(s)
    ensures IsWord(HexValue(s))
  {
    HexBound(s);
    Pow2Monotone(4 * |s|, 64);
    Pow2Values();
  }

  lemma {:induction false} HexRunOfWord(w: string, rest: string)
    requires AllHex(w) && (rest == "" || HexDigit(rest[0]).None?)
    ensures HexRun(w + rest) == |w|
  {
    if w != "" {
      HexRunOfWord(w[1..], rest);
      assert (w + rest)[1..] == w[1..] + rest;
    } else {
      assert w + rest == rest;
    }
  }

  function Values(digits: seq<string>): (vs: seq<word>)
    requires forall i :: 0 <= i < |digits| ==> IsWord(HexValue(digits[i]))
    ensures |vs| == |digits| && forall i :: 0 <= i < |vs| ==> vs[i] == HexValue(digits[i])
  {
    seq(|digits|, i requires 0 <= i < |digits| => HexValue(digits[i]))
  }

  lemma ReadOne(w: string, rest: string)
    requires HexWord(w) && (rest == "" || HexDigit(rest[0]).None?)
    ensures IsWord(HexValue(w)) && ReadWords(w + rest) == [HexValue(w)] + ReadWords(rest)
  {
    HexWordIsWord(w);
    HexRunOfWord(w, rest);
    assert HexDigit(w[0]).Some? && !IsSpace(w[0]);
    assert (w + rest)[..|w|] == w && (w + rest)[|w|..] == rest;
  }

  /** A list of written words, separated by spaces, reads back as their values. */
  lemma {:induction false} ReadsWhatIsWritten(digits: seq<string>)
    requires digits != [] && forall i :: 0 <= i < |digits| ==> HexWord(digits[i])
    ensures forall i :: 0 <= i < |digits| ==> IsWord(HexValue(digits[i]))
    ensures ReadWords(Join(digits, ' ')) == Values(digits)
  {
    forall i | 0 <= i < |digits| ensures IsWord(HexValue(digits[i])) {
      HexWordIsWord(digits[i]);
    }
    if |digits| == 1 {
      ReadOne(digits[0], "");
      assert digits[0] + "" == digits[0];
      assert Values(digits) == [HexValue(digits[0])];
    } else {
      var rest := Join(digits[1..], ' ');
      ReadsWhatIsWritten(digits[1..]);
      ReadOne(digits[0], " " + rest);
      assert (" " + rest)[1..] == rest;
      assert Join(digits, ' ') == digits[0] + (" " + rest);
      assert Values(digits) == [HexValue(digits[0])] + Values(digits[1..]);
    }
  }

  /** The bits read from a written bitmap are those of the number its words denote. */
  lemma WrittenBits(digits: seq<string>, i: nat)
    requires digits != [] && forall k :: 0 <= k < |digits| ==> HexWord(digits[k])
    ensures forall k :: 0 <= k < |digits| ==> IsWord(HexValue(digits[k]))
    ensures CheckBit(BitVector(Join(digits, ' ')), i) <==> Bit(Denoted(Values(digits)), i)
  {
    ReadsWhatIsWritten(digits);
    CheckBitIsBitOfNumber(Join(digits, ' '), i);
  }

  // ----- Printing a bitmap -----

  function HexChar(d: nat): char
    requires d < 16
  {
    "0123456789abcdef"[d]
  }

  function ToHex(n: nat): (s: string)
    ensures s != ""
  {
    if n < 16 then [HexChar(n)] else ToHex(n / 16) + [HexChar(n % 16)]
  }

  lemma HexDigitRoundTrip(d: nat)
    requires d < 16
    ensures HexDigit(HexChar(d)) == Some(d) && HexDigit("0123456789ABCDEF"[d]) == Some(d)
  {
  }

  lemma HexSnoc(s: string, d: nat)
    requires d < 16 && AllHex(s)
    ensures AllHex(s + [HexChar(d)]) && HexValue(s + [HexChar(d)]) == 16 * HexValue(s) + d
  {
    HexDigitRoundTrip(d);
    var all := s + [HexChar(d)];
    assert all[..|all| - 1] == s && all[|all| - 1] == HexChar(d);
  }

  lemma QuotientBound(n: nat, width: nat)
    requires 0 < width && 16 <= n < Pow2(4 * width)
    ensures 1 < width && n / 16 < Pow2(4 * (width - 1))
  {
    assert Pow2(4) == 16 && Pow2(0) == 1;
    Pow2Sum(4, 4 * (width - 1));
  }

  lemma {:induction false} HexRoundTrip(n: nat, width: nat)
    requires 0 < width && n < Pow2(4 * width)
    ensures HexValue(ToHex(n)) == n && AllHex(ToHex(n)) && |ToHex(n)| <= width
  {
    if n < 16 {
      HexSnoc("", n);
      assert "" + [HexChar(n)] == ToHex(n);
    } else {
      QuotientBound(n, width);
      HexRoundTrip(n / 16, width - 1);
      HexSnoc(ToHex(n / 16), n % 16);
    }
  }

  function Printed(bits: seq<word>): string
    requires bits != []
  {
    ReversedTwice(bits);
    var high := Reversed(bits);
    Join(seq(|high|, i requires 0 <= i < |high| => ToHex(high[i])), ' ')
  }

  /** Printing a bitmap and reading it back gives the same words, hence the same bits. */
  lemma BitmapRoundTrip(bits: seq<word>)
    requires bits != []
    ensures BitVector(Printed(bits)) == bits
  {
    var high := Reversed(bits);
    ReversedTwice(bits);
    var digits := seq(|high|, i requires 0 <= i < |high| => ToHex(high[i]));
    Pow2Values();
    forall i | 0 <= i < |digits| ensures HexWord(digits[i]) && HexValue(digits[i]) == high[i] {
      HexRoundTrip(high[i], 16);
    }
    ReadsWhatIsWritten(digits);
    assert Values(digits) == high;
  }

  // ----- The code -----

  method ReadBitVector(str: string) returns (bits: seq<word>)
    ensures bits == BitVector(str)
  {
    bits := [];
    var s := str;
    while s != ""
      invariant bits + ReadWords(s) == ReadWords(str)
      decreases |s|
    {
      if IsSpace(s[0]) {
        s := s[1..];
        continue;
      }
      var n := HexRun(s);
      var value := HexValue(s[..n]);
      if n == 0 || !IsWord(value) {
        break;
      }
      bits := bits + [value];
      s := s[n..];
    }
    assert bits == ReadWords(str);
    bits := Reverse(bits);
  }

  method Reverse(ws: seq<word>) returns (r: seq<word>)
    ensures r == Reversed(ws)
  {
    r := [];
    var i := 0;
    while i < |ws|
      invariant 0 <= i <= |ws|
      invariant Reversed(ws) == Reversed(ws[i..]) + r
    {
      assert ws[i..][1..] == ws[i + 1..];
      r := [ws[i]] + r;
      i := i + 1;
    }
  }
}
