/** The text operations the program relies on: decimal numerals, `str.split` and `str.join` on one
    separator, and UTF-8 validity. Numerals are ASCII digit strings. */
module Text {
  import opened Octets

  function Digit(d: nat): (c: char)
    requires d < 10
    ensures IsDigit(c) && c as int == '0' as int + d
  {
    ('0' as int + d) as char
  }

  predicate IsDigit(c: char) {
    '0' <= c <= '9'
  }

  function DigitValue(c: char): (d: nat)
    requires IsDigit(c)
    ensures d < 10 && Digit(d) == c
  {
    c as int - '0' as int
  }

  /** `str(n)`. */
  function Str(n: nat): (s: string)
    ensures s != []
  {
    if n < 10 then [Digit(n)] else Str(n / 10) + [Digit(n % 10)]
  }

  predicate IsNumeral(s: string) {
    s != [] && forall i :: 0 <= i < |s| ==> IsDigit(s[i])
  }

  /** `int(s)` of a numeral. */
  function Int(s: string): nat
    requires IsNumeral(s)
  {
    var last := DigitValue(s[|s| - 1]);
    if |s| == 1 then last else 10 * Int(s[..|s| - 1]) + last
  }

  lemma {:induction false} IntOfStr(n: nat)
    ensures IsNumeral(Str(n)) && Int(Str(n)) == n
    ensures n > 0 ==> Str(n)[0] != '0'
  {
    if n >= 10 {
      IntOfStr(n / 10);
      var s := Str(n);
      assert s[..|s| - 1] == Str(n / 10);
    }
  }

  predicate AllNumerals(parts: seq<string>) {
    forall i :: 0 <= i < |parts| ==> IsNumeral(parts[i])
  }

  /** A numeral without superfluous zeros in front. */
  predicate Canonical(s: string) {
    IsNumeral(s) && (|s| == 1 || s[0] != '0')
  }

  lemma {:induction false} IntPositive(s: string)
    requires IsNumeral(s) && s[0] != '0'
    ensures Int(s) > 0
  {
    if |s| > 1 {
      IntPositive(s[..|s| - 1]);
    }
  }

  /** Printing what was parsed gives back exactly the canonical numerals. */
  lemma {:induction false} StrOfInt(s: string)
    requires IsNumeral(s)
    ensures Str(Int(s)) == s <==> Canonical(s)
  {
    if |s| > 1 {
      var front := s[..|s| - 1];
      StrOfInt(front);
      if Canonical(s) {
        IntPositive(front);
        assert Int(s) >= 10;
        assert Int(s) / 10 == Int(front) && Int(s) % 10 == DigitValue(s[|s| - 1]);
        assert s == front + [s[|s| - 1]];
      } else if Str(Int(s)) == s {
        IntOfStr(Int(s));
      }
    }
  }

  function Join(parts: seq<string>, sep: char): string {
    if parts == [] then []
    else if |parts| == 1 then parts[0]
    else parts[0] + [sep] + Join(parts[1..], sep)
  }

  function Split(s: string, sep: char): (parts: seq<string>)
    ensures parts != []
    decreases |s|
  {
    if s == [] then [[]]
    else
      var rest := Split(s[1..], sep);
      if s[0] == sep then [[]] + rest else [[s[0]] + rest[0]] + rest[1..]
  }

  lemma {:induction false} SplitWord(word: string, sep: char)
    requires sep !in word
    ensures Split(word, sep) == [word]
    decreases |word|
  {
    if word != [] {
      SplitWord(word[1..], sep);
      assert word == [word[0]] + word[1..];
    }
  }

  lemma {:induction false} SplitFirst(word: string, tail: string, sep: char)
    requires sep !in word
    ensures Split(word + [sep] + tail, sep) == [word] + Split(tail, sep)
    decreases |word|
  {
    var s := word + [sep] + tail;
    if word == [] {
      assert s[1..] == tail;
    } else {
      SplitFirst(word[1..], tail, sep);
      assert s[1..] == word[1..] + [sep] + tail;
      assert word == [word[0]] + word[1..];
      var rest := Split(s[1..], sep);
      assert rest[1..] == Split(tail, sep);
    }
  }

  lemma {:induction false} SplitOfJoin(parts: seq<string>, sep: char)
    requires parts != [] && forall i :: 0 <= i < |parts| ==> sep !in parts[i]
    ensures Split(Join(parts, sep), sep) == parts
  {
    if |parts| == 1 {
      SplitWord(parts[0], sep);
    } else {
      SplitOfJoin(parts[1..], sep);
      SplitFirst(parts[0], Join(parts[1..], sep), sep);
    }
  }

  lemma {:induction false} JoinOfSplit(s: string, sep: char)
    ensures Join(Split(s, sep), sep) == s
    ensures forall i :: 0 <= i < |Split(s, sep)| ==> sep !in Split(s, sep)[i]
    decreases |s|
  {
    if s != [] {
      JoinOfSplit(s[1..], sep);
      var rest := Split(s[1..], sep);
      var parts := Split(s, sep);
      assert s == [s[0]] + s[1..];
      if s[0] == sep {
        assert parts == [[]] + rest && parts[1..] == rest;
        assert Join(parts, sep) == [] + [sep] + Join(rest, sep);
      } else {
        var first := [s[0]] + rest[0];
        assert parts == [first] + rest[1..] && parts[1..] == rest[1..];
        if |rest| > 1 {
          assert Join(parts, sep) == [s[0]] + (rest[0] + [sep] + Join(rest[1..], sep));
        } else {
          assert Join(parts, sep) == [s[0]] + Join(rest, sep);
        }
      }
    }
  }

  function StrAll(ns: seq<nat>): (parts: seq<string>)
    ensures |parts| == |ns|
    ensures forall i :: 0 <= i < |ns| ==> parts[i] == Str(ns[i])
  {
    if ns == [] then [] else [Str(ns[0])] + StrAll(ns[1..])
  }

  function IntAll(parts: seq<string>): (ns: seq<nat>)
    requires AllNumerals(parts)
    ensures |ns| == |parts|
    ensures forall i :: 0 <= i < |parts| ==> ns[i] == Int(parts[i])
  {
    if parts == [] then [] else [Int(parts[0])] + IntAll(parts[1..])
  }

  lemma IntAllOfStrAll(ns: seq<nat>)
    ensures forall i :: 0 <= i < |ns| ==> IsNumeral(StrAll(ns)[i]) && '.' !in StrAll(ns)[i]
    ensures IntAll(StrAll(ns)) == ns
  {
    forall i | 0 <= i < |ns|
      ensures IsNumeral(StrAll(ns)[i]) && '.' !in StrAll(ns)[i] && Int(StrAll(ns)[i]) == ns[i]
    {
      IntOfStr(ns[i]);
    }
  }

  /** `bytes.decode("utf-8")` succeeds: Table 3-7 of the Unicode Standard. */
  predicate IsUtf8(s: Bytes)
    decreases |s|
  {
    if s == [] then true
    else if s[0] < 0x80 then IsUtf8(s[1..])
    else if 0xC2 <= s[0] <= 0xDF then |s| >= 2 && Continues(s[1]) && IsUtf8(s[2..])
    else if 0xE0 <= s[0] <= 0xEF then
      && |s| >= 3
      && (if s[0] == 0xE0 then 0xA0 <= s[1] <= 0xBF else if s[0] == 0xED then 0x80 <= s[1] <= 0x9F else Continues(s[1]))
      && Continues(s[2])
      && IsUtf8(s[3..])
    else
      && 0xF0 <= s[0] <= 0xF4
      && |s| >= 4
      && (if s[0] == 0xF0 then 0x90 <= s[1] <= 0xBF else if s[0] == 0xF4 then 0x80 <= s[1] <= 0x8F else Continues(s[1]))
      && Continues(s[2])
      && Continues(s[3])
      && IsUtf8(s[4..])
  }

  predicate Continues(x: Octet) {
    0x80 <= x <= 0xBF
  }

  // UTF-8 by code points

  /** The Unicode scalar values: code points that are no surrogates. */
  predicate IsScalar(c: int) {
    0 <= c < 0xD800 || 0xE000 <= c < 0x110000
  }

  /** Section 3 of RFC 3629. */
  function Utf8(c: int): Bytes
    requires IsScalar(c)
  {
    if c < 0x80 then [c]
    else if c < 0x800 then [0xC0 + c / 64, 0x80 + c % 64]
    else if c < 0x10000 then [0xE0 + c / 4096, 0x80 + c / 64 % 64, 0x80 + c % 64]
    else [0xF0 + c / 262144, 0x80 + c / 4096 % 64, 0x80 + c / 64 % 64, 0x80 + c % 64]
  }

  function Utf8All(cs: seq<int>): Bytes
    requires forall i :: 0 <= i < |cs| ==> IsScalar(cs[i])
  {
    if cs == [] then [] else Utf8(cs[0]) + Utf8All(cs[1..])
  }

  lemma Utf8Step(c: int, rest: Bytes)
    requires IsScalar(c) && IsUtf8(rest)
    ensures IsUtf8(Utf8(c) + rest)
  {
    var head := Utf8(c);
    var s := head + rest;
    assert s[|head|..] == rest;
    assert s[0] == head[0] && (|head| > 1 ==> s[1] == head[1]) && (|head| > 2 ==> s[2] == head[2]);
    if c < 0x80 {
    } else if c < 0x800 {
      assert 0xC2 <= head[0] <= 0xDF;
    } else if c < 0x10000 {
      ThreeOctets(c);
    } else {
      FourOctets(c);
    }
  }

  lemma ThreeOctets(c: int)
    requires IsScalar(c) && 0x800 <= c < 0x10000
    ensures 0xE0 <= Utf8(c)[0] <= 0xEF && Continues(Utf8(c)[1]) && Continues(Utf8(c)[2])
    ensures Utf8(c)[0] == 0xE0 ==> Utf8(c)[1] >= 0xA0
    ensures Utf8(c)[0] == 0xED ==> Utf8(c)[1] <= 0x9F
  {
  }

  lemma FourOctets(c: int)
    requires 0x10000 <= c < 0x110000
    ensures 0xF0 <= Utf8(c)[0] <= 0xF4 && Continues(Utf8(c)[1]) && Continues(Utf8(c)[2]) && Continues(Utf8(c)[3])
    ensures Utf8(c)[0] == 0xF0 ==> Utf8(c)[1] >= 0x90
    ensures Utf8(c)[0] == 0xF4 ==> Utf8(c)[1] <= 0x8F
  {
  }

  lemma {:induction false} EncodedIsUtf8(cs: seq<int>)
    requires forall i :: 0 <= i < |cs| ==> IsScalar(cs[i])
    ensures IsUtf8(Utf8All(cs))
  {
    if cs != [] {
      EncodedIsUtf8(cs[1..]);
      Utf8Step(cs[0], Utf8All(cs[1..]));
    }
  }

  /** The code point of three or four octets, and its octets back. */
  lemma ThreeBack(a: int, b: int, d: int)
    requires 0 <= a < 16 && 0 <= b < 64 && 0 <= d < 64 && (a == 0 ==> b >= 32) && (a == 13 ==> b < 32)
    ensures var c := 4096 * a + 64 * b + d;
            IsScalar(c) && Utf8(c) == [0xE0 + a, 0x80 + b, 0x80 + d]
  {
    var c := 4096 * a + 64 * b + d;
    assert c / 4096 == a && c / 64 == 64 * a + b;
  }

  lemma FourBack(a: int, b: int, d: int, e: int)
    requires 0 <= a <= 4 && 0 <= b < 64 && 0 <= d < 64 && 0 <= e < 64 && (a == 0 ==> b >= 16) && (a == 4 ==> b < 16)
    ensures var c := 262144 * a + 4096 * b + 64 * d + e;
            IsScalar(c) && Utf8(c) == [0xF0 + a, 0x80 + b, 0x80 + d, 0x80 + e]
  {
    var c := 262144 * a + 4096 * b + 64 * d + e;
    assert c / 262144 == a && c / 4096 == 64 * a + b && c / 64 == 4096 * a + 64 * b + d;
  }

  lemma FirstScalar(s: Bytes) returns (c: int)
    requires IsUtf8(s) && s != []
    ensures IsScalar(c) && Utf8(c) <= s && IsUtf8(s[|Utf8(c)|..])
  {
    var o: seq<int> := s;
    if o[0] < 0x80 {
      c := o[0];
    } else if o[0] <= 0xDF {
      c := 64 * (o[0] - 0xC0) + (o[1] - 0x80);
    } else if o[0] <= 0xEF {
      c := 4096 * (o[0] - 0xE0) + 64 * (o[1] - 0x80) + (o[2] - 0x80);
      ThreeBack(o[0] - 0xE0, o[1] - 0x80, o[2] - 0x80);
    } else {
      c := 262144 * (o[0] - 0xF0) + 4096 * (o[1] - 0x80) + 64 * (o[2] - 0x80) + (o[3] - 0x80);
      FourBack(o[0] - 0xF0, o[1] - 0x80, o[2] - 0x80, o[3] - 0x80);
    }
  }

  lemma {:induction false} Scalars(s: Bytes) returns (cs: seq<int>)
    requires IsUtf8(s)
    ensures forall i :: 0 <= i < |cs| ==> IsScalar(cs[i])
    ensures Utf8All(cs) == s
    decreases |s|
  {
    if s == [] {
      cs := [];
    } else {
      var c := FirstScalar(s);
      var n := |Utf8(c)|;
      var rest := Scalars(s[n..]);
      cs := [c] + rest;
      assert s == s[..n] + s[n..];
      assert cs[1..] == rest;
    }
  }

  /** Octets are UTF-8 exactly if they encode a sequence of Unicode scalar values. */
  lemma Utf8Exactly(s: Bytes)
    ensures IsUtf8(s) <==> exists cs: seq<int> :: (forall i :: 0 <= i < |cs| ==> IsScalar(cs[i])) && Utf8All(cs) == s
  {
    if IsUtf8(s) {
      var cs := Scalars(s);
      assert Utf8All(cs) == s;
    }
    if cs: seq<int> :| (forall i :: 0 <= i < |cs| ==> IsScalar(cs[i])) && Utf8All(cs) == s {
      EncodedIsUtf8(cs);
    }
  }
}
