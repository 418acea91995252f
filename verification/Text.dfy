/** Decimal numbers, and lists written with a separator. */
module Text {
  import opened Basics

  // ----- Lists with a separator -----

  function Join(parts: seq<string>, sep: char): string
    requires parts != []
  {
    if |parts| == 1 then parts[0] else parts[0] + [sep] + Join(parts[1..], sep)
  }

  function Split(s: string, sep: char): (parts: seq<string>)
    ensures parts != []
  {
    if s == "" then [""]
    else
      var rest := Split(s[1..], sep);
      if s[0] == sep then [""] + rest else [[s[0]] + rest[0]] + rest[1..]
  }

  lemma {:induction false} SplitPart(part: string, sep: char)
    requires sep !in part
    ensures Split(part, sep) == [part]
  {
    if part != "" {
      SplitPart(part[1..], sep);
      assert [part[0]] + part[1..] == part;
    }
  }

  lemma {:induction false} SplitAfterPart(part: string, sep: char, rest: string)
    requires sep !in part
    ensures Split(part + [sep] + rest, sep) == [part] + Split(rest, sep)
  {
    var s := part + [sep] + rest;
    if part == "" {
      assert s[1..] == rest;
    } else {
      SplitAfterPart(part[1..], sep, rest);
      assert s[1..] == part[1..] + [sep] + rest;
      assert s[0] == part[0] && s[0] != sep;
      assert ([part[1..]] + Split(rest, sep))[1..] == Split(rest, sep);
      assert [part[0]] + part[1..] == part;
    }
  }

  /** Splitting recovers the parts, if none of them contains the separator. */
  lemma {:induction false} SplitJoin(parts: seq<string>, sep: char)
    requires parts != [] && forall i :: 0 <= i < |parts| ==> sep !in parts[i]
    ensures Split(Join(parts, sep), sep) == parts
  {
    if |parts| == 1 {
      SplitPart(parts[0], sep);
    } else {
      SplitJoin(parts[1..], sep);
      SplitAfterPart(parts[0], sep, Join(parts[1..], sep));
    }
  }

  lemma {:induction false} PartsHaveNoSeparator(s: string, sep: char)
    ensures forall i :: 0 <= i < |Split(s, sep)| ==> sep !in Split(s, sep)[i]
  {
    if s != "" {
      PartsHaveNoSeparator(s[1..], sep);
    }
  }

  /** Joining the parts gives the string back. */
  lemma {:induction false} JoinSplit(s: string, sep: char)
    ensures Join(Split(s, sep), sep) == s
  {
    if s != "" {
      var rest := Split(s[1..], sep);
      JoinSplit(s[1..], sep);
      if s[0] == sep {
        assert ([""] + rest)[1..] == rest;
      } else {
        assert ([[s[0]] + rest[0]] + rest[1..])[1..] == rest[1..];
      }
    }
  }

  // ----- Decimal numbers -----

  function DigitChar(d: nat): char
    requires d < 10
  {
    "0123456789"[d]
  }

  function DigitOf(c: char): Option<nat> {
    if '0' <= c <= '9' then Some(c as int - '0' as int) else None
  }

  function NatToString(n: nat): (s: string)
    ensures s != ""
  {
    if n < 10 then [DigitChar(n)] else NatToString(n / 10) + [DigitChar(n % 10)]
  }

  function ToString(i: int): string {
    if i < 0 then "-" + NatToString(-i) else NatToString(i)
  }

  function ParseNat(s: string): Option<nat> {
    if s == "" then Some(0)
    else
      match (ParseNat(s[..|s| - 1]), DigitOf(s[|s| - 1]))
      case (Some(n), Some(d)) => Some(10 * n + d)
      case _ => None
  }

  function ParseInt(s: string): Option<int> {
    if s == "" then None
    else if s[0] == '-' then
      match ParseNat(s[1..])
      case Some(n) => Some(-(n as int))
      case None => None
    else
      match ParseNat(s)
      case Some(n) => Some(n)
      case None => None
  }

  ghost predicate Digits(s: string) {
    forall i :: 0 <= i < |s| ==> '0' <= s[i] <= '9'
  }

  lemma DigitRoundTrip(d: nat)
    requires d < 10
    ensures '0' <= DigitChar(d) <= '9' && DigitOf(DigitChar(d)) == Some(d)
  {
  }

  lemma {:induction false} NatRoundTrip(n: nat)
    ensures Digits(NatToString(n))
    ensures ParseNat(NatToString(n)) == Some(n)
  {
    DigitRoundTrip(n % 10);
    var s := NatToString(n);
    if n < 10 {
      assert s[..0] == "" && ParseNat(s[..0]) == Some(0);
      assert ParseNat(s) == Some(10 * 0 + n);
    } else {
      NatRoundTrip(n / 10);
      assert s[..|s| - 1] == NatToString(n / 10);
    }
  }

  /** A printed number reads back, and contains no comma. */
  lemma IntRoundTrip(i: int)
    ensures ParseInt(ToString(i)) == Some(i)
    ensures ',' !in ToString(i)
  {
    var digits := NatToString(if i < 0 then -i else i);
    NatRoundTrip(if i < 0 then -i else i);
    assert ',' !in digits && digits[0] != '-';
    if i < 0 {
      assert ToString(i) == "-" + digits && ("-" + digits)[1..] == digits;
    } else {
      assert ToString(i) == digits;
    }
  }

  // ----- Lists of numbers -----

  predicate IsInt32(i: int) {
    -INT32_MAX - 1 <= i <= INT32_MAX
  }

  function Printed(numbers: seq<int32>): (parts: seq<string>)
    ensures |parts| == |numbers| && forall i :: 0 <= i < |parts| ==> parts[i] == ToString(numbers[i])
  {
    seq(|numbers|, i requires 0 <= i < |numbers| => ToString(numbers[i]))
  }

  function ParseAll(parts: seq<string>): Option<seq<int32>> {
    if parts == [] then Some([])
    else
      match (ParseInt(parts[0]), ParseAll(parts[1..]))
      case (Some(n), Some(rest)) => if IsInt32(n) then Some([n] + rest) else None
      case _ => None
  }

  function Encode(numbers: seq<int32>): string
    requires numbers != []
  {
    Join(Printed(numbers), ',')
  }

  function Decode(s: string): Option<seq<int32>> {
    ParseAll(Split(s, ','))
  }

  lemma {:induction false} ParsePrinted(numbers: seq<int32>)
    ensures ParseAll(Printed(numbers)) == Some(numbers)
  {
    if numbers != [] {
      IntRoundTrip(numbers[0]);
      ParsePrinted(numbers[1..]);
      assert Printed(numbers)[1..] == Printed(numbers[1..]);
      assert [numbers[0]] + numbers[1..] == numbers;
    }
  }

  /** A comma-separated list of numbers reads back. */
  lemma EncodeRoundTrip(numbers: seq<int32>)
    requires numbers != []
    ensures Decode(Encode(numbers)) == Some(numbers)
  {
    var parts := Printed(numbers);
    forall i | 0 <= i < |parts| ensures ',' !in parts[i] {
      IntRoundTrip(numbers[i]);
    }
    SplitJoin(parts, ',');
    ParsePrinted(numbers);
  }

  lemma {:induction false} JoinAppend(parts: seq<string>, more: seq<string>, sep: char)
    requires parts != [] && more != []
    ensures Join(parts + more, sep) == Join(parts, sep) + [sep] + Join(more, sep)
  {
    if |parts| == 1 {
      assert (parts + more)[1..] == more;
    } else {
      JoinAppend(parts[1..], more, sep);
      assert (parts + more)[1..] == parts[1..] + more;
    }
  }

  /** Appending one number to an encoded list. */
  lemma EncodeSnoc(numbers: seq<int32>, n: int32)
    requires numbers != []
    ensures Encode(numbers + [n]) == Encode(numbers) + "," + ToString(n)
  {
    JoinAppend(Printed(numbers), [ToString(n)], ',');
    assert Printed(numbers + [n]) == Printed(numbers) + [ToString(n)];
  }
}
