/** The btoa and atob polyfills: base64 as in section 4 of RFC 4648. */
module Base64 {
  import opened Options
  import opened Sequences

  type Byte = x: nat | x < 256

  /** charAt of the digit table, whose last entry, 64, is the padding character. */
  function DigitChar(k: nat): (c: char)
    requires k <= 64
    ensures c == '=' <==> k == 64
  {
    if k < 26 then ('A' as int + k) as char
    else if k < 52 then ('a' as int + k - 26) as char
    else if k < 62 then ('0' as int + k - 52) as char
    else if k == 62 then '+'
    else if k == 63 then '/'
    else '='
  }

  /** indexOf in the digit table. */
  function DigitIndex(c: char): (k: int)
    ensures -1 <= k <= 64
    ensures k >= 0 ==> DigitChar(k) == c
  {
    if 'A' <= c <= 'Z' then c as int - 'A' as int
    else if 'a' <= c <= 'z' then c as int - 'a' as int + 26
    else if '0' <= c <= '9' then c as int - '0' as int + 52
    else if c == '+' then 62
    else if c == '/' then 63
    else if c == '=' then 64
    else -1
  }

  const DIGITS := "ABCDEFGHIJKLMNOPQRSTUVWXYZ" + "abcdefghijklmnopqrstuvwxyz" + "0123456789" + "+/="

  /** `n` consecutive characters. */
  function Consecutive(first: char, n: nat): string
    requires first as int + n <= 128
  {
    seq(n, i requires 0 <= i < n => (first as int + i) as char)
  }

  lemma {:induction false} TableRows()
    ensures Consecutive('A', 26) == "ABCDEFGHIJKLMNOPQRSTUVWXYZ"
    ensures Consecutive('a', 26) == "abcdefghijklmnopqrstuvwxyz"
    ensures Consecutive('0', 10) == "0123456789"
  {
  }

  /** The digits are those of the table, in its order. */
  lemma {:induction false} DigitTable(k: nat)
    requires k <= 64
    ensures |DIGITS| == 65 && DigitChar(k) == DIGITS[k]
  {
    TableRows();
    RowsInOrder(k);
  }

  lemma {:induction false} RowsInOrder(k: nat)
    requires k <= 64
    ensures DigitChar(k) == (Consecutive('A', 26) + Consecutive('a', 26) + Consecutive('0', 10) + "+/=")[k]
  {
  }

  lemma {:induction false} DigitRoundTrip(k: nat)
    requires k <= 64
    ensures DigitIndex(DigitChar(k)) == k
  {
  }

  // ---- The format: groups of three bytes and four digits ------------------------------------

  type Digit = x: nat | x < 64

  /** The digits of a byte string: four for three bytes, three for two, two for one. */
  function Digits(s: seq<Byte>): seq<Digit> {
    if s == [] then []
    else if |s| == 1 then [s[0] / 4, (s[0] % 4) * 16]
    else if |s| == 2 then [s[0] / 4, (s[0] % 4) * 16 + s[1] / 16, (s[1] % 16) * 4]
    else FourDigitsOf(s[0], s[1], s[2]) + Digits(s[3..])
  }

  function FourDigitsOf(x: Byte, y: Byte, z: Byte): (r: seq<Digit>)
    ensures |r| == 4
  {
    [x / 4, (x % 4) * 16 + y / 16, (y % 16) * 4 + z / 64, z % 64]
  }

  /** The digits of a group, as a number to the base 64, are its bytes as a number to the base 256. */
  lemma {:induction false} GroupValue(x: Byte, y: Byte, z: Byte)
    ensures var g := FourDigitsOf(x, y, z);
            ((g[0] as int * 64 + g[1] as int) * 64 + g[2] as int) * 64 + g[3] as int == (x * 256 + y) * 256 + z
  {
  }

  /** An incomplete group stands for its bytes, followed by zeros. */
  lemma {:induction false} ShortGroupValue(s: seq<Byte>)
    requires 1 <= |s| <= 2
    ensures Digits(s) == FourDigitsOf(s[0], if |s| == 2 then s[1] else 0, 0)[..|s| + 1]
  {
  }

  function PaddingLength(n: nat): nat { (3 - n % 3) % 3 }

  function Padding(k: nat): (r: string)
    ensures |r| == k
  {
    if k == 0 then "" else "=" + Padding(k - 1)
  }

  function Chars(digits: seq<Digit>): (r: string)
    ensures |r| == |digits| && forall i :: 0 <= i < |r| ==> r[i] == DigitChar(digits[i])
  {
    seq(|digits|, i requires 0 <= i < |digits| => DigitChar(digits[i]))
  }

  function Encoded(s: seq<Byte>): string { Chars(Digits(s)) + Padding(PaddingLength(|s|)) }

  function FirstByte(a: Digit, b: Digit): Byte { (a as nat) * 4 + (b as nat) / 16 }

  function SecondByte(b: Digit, c: Digit): Byte { ((b as nat) % 16) * 16 + (c as nat) / 4 }

  function ThirdByte(c: Digit, d: Digit): Byte { ((c as nat) % 4) * 64 + (d as nat) }

  /** Decoding group by group; an incomplete group holds one byte less than it has digits. */
  function DecodeGroups(d: seq<Digit>): seq<Byte> {
    if |d| <= 1 then []
    else if |d| == 2 then [FirstByte(d[0], d[1])]
    else if |d| == 3 then [FirstByte(d[0], d[1]), SecondByte(d[1], d[2])]
    else [FirstByte(d[0], d[1]), SecondByte(d[1], d[2]), ThirdByte(d[2], d[3])] + DecodeGroups(d[4..])
  }

  lemma {:induction false} OneGroup(x: Byte, y: Byte, z: Byte)
    ensures FirstByte(x / 4, (x % 4) * 16 + y / 16) == x
    ensures FirstByte(x / 4, (x % 4) * 16) == x
    ensures SecondByte((x % 4) * 16 + y / 16, (y % 16) * 4 + z / 64) == y
    ensures SecondByte((x % 4) * 16 + y / 16, (y % 16) * 4) == y
    ensures ThirdByte((y % 16) * 4 + z / 64, z % 64) == z
  {
  }

  lemma {:induction false} FourDigits(a: Digit, b: Digit, c: Digit, d: Digit, rest: seq<Digit>)
    ensures DecodeGroups([a, b, c, d] + rest)
         == [FirstByte(a, b), SecondByte(b, c), ThirdByte(c, d)] + DecodeGroups(rest)
  {
    var all := [a, b, c, d] + rest;
    assert all[4..] == rest && all[0] == a && all[1] == b && all[2] == c && all[3] == d;
  }

  lemma {:induction false} FirstGroup(x: Byte, y: Byte, z: Byte, rest: seq<Digit>)
    ensures DecodeGroups(FourDigitsOf(x, y, z) + rest) == [x, y, z] + DecodeGroups(rest)
  {
    OneGroup(x, y, z);
    FourDigits(x / 4, (x % 4) * 16 + y / 16, (y % 16) * 4 + z / 64, z % 64, rest);
  }

  lemma {:induction false} ShortRoundTrip(s: seq<Byte>)
    requires |s| <= 2
    ensures DecodeGroups(Digits(s)) == s
  {
    if |s| == 1 {
      OneGroup(s[0], 0, 0);
    } else if |s| == 2 {
      OneGroup(s[0], s[1], 0);
    }
  }

  lemma {:induction false} GroupsRoundTrip(s: seq<Byte>)
    ensures DecodeGroups(Digits(s)) == s
  {
    if |s| <= 2 {
      ShortRoundTrip(s);
    } else {
      GroupsRoundTrip(s[3..]);
      FirstGroup(s[0], s[1], s[2], Digits(s[3..]));
      assert s == [s[0], s[1], s[2]] + s[3..];
    }
  }

  /** Three bytes more make four characters more and leave the padding as it is. */
  lemma {:induction false} OneGroupMore(n: nat)
    ensures PaddingLength(n + 3) == PaddingLength(n)
    ensures (n + 3 + 2) / 3 == (n + 2) / 3 + 1
  {
  }

  lemma {:induction false} DigitCount(s: seq<Byte>)
    ensures |Digits(s)| + PaddingLength(|s|) == 4 * ((|s| + 2) / 3)
  {
    if |s| <= 2 {
      assert |Digits(s)| == if |s| == 0 then 0 else |s| + 1;
    } else {
      var rest := s[3..];
      DigitCount(rest);
      OneGroupMore(|rest|);
      assert |Digits(s)| == 4 + |Digits(rest)|;
    }
  }

  lemma {:induction false} NoSingleDigit(s: seq<Byte>)
    ensures |Digits(s)| % 4 != 1
  {
    if |s| > 2 {
      NoSingleDigit(s[3..]);
    }
  }

  // ---- btoa -----------------------------------------------------------------------------------

  /** The low bytes of the code units of a string. */
  function LowBytes(chars: seq<nat>): (r: seq<Byte>)
    ensures |r| == |chars| && forall i :: 0 <= i < |chars| ==> r[i] == chars[i] % 256
  {
    seq(|chars|, i requires 0 <= i < |chars| => chars[i] % 256)
  }

  /** charCodeAt(i) & 0xFF, which is 0 beyond the end. */
  function LowByteAt(chars: seq<nat>, i: nat): Byte {
    if i < |chars| then chars[i] % 256 else 0
  }

  /** The four characters that encode the code units from `i` on. */
  function GroupChars(chars: seq<nat>, i: nat): string
    requires i < |chars|
  {
    var b1, b2, b3 := LowByteAt(chars, i), LowByteAt(chars, i + 1), LowByteAt(chars, i + 2);
    [DigitChar(b1 as nat / 4), DigitChar((b1 % 4) * 16 + b2 / 16),
     DigitChar(if i + 1 < |chars| then (b2 % 16) * 4 + b3 / 64 else 64),
     DigitChar(if i + 2 < |chars| then b3 % 64 else 64)]
  }

  lemma {:induction false} CharsConcat(a: seq<Digit>, b: seq<Digit>)
    ensures Chars(a + b) == Chars(a) + Chars(b)
  {
  }

  /** The encoding of three or more bytes. */
  lemma {:induction false} EncodedGroup(s: seq<Byte>)
    requires |s| >= 3
    ensures Encoded(s) == Chars(Digits(s)[..4]) + Encoded(s[3..])
  {
    CharsConcat(Digits(s)[..4], Digits(s[3..]));
    assert Digits(s) == Digits(s)[..4] + Digits(s[3..]);
    assert PaddingLength(|s|) == PaddingLength(|s[3..]|);
  }

  lemma {:induction false} EncodedOne(x: Byte)
    ensures Encoded([x]) == [DigitChar(x as nat / 4), DigitChar((x % 4) * 16), '=', '=']
  {
    assert Digits([x]) == [x / 4, (x % 4) * 16];
    assert Padding(1) == "=" && Padding(2) == "==";
  }

  lemma {:induction false} EncodedTwo(x: Byte, y: Byte)
    ensures Encoded([x, y])
         == [DigitChar(x as nat / 4), DigitChar((x % 4) * 16 + y / 16), DigitChar((y % 16) * 4), '=']
  {
    assert Digits([x, y]) == [x / 4, (x % 4) * 16 + y / 16, (y % 16) * 4];
    assert Padding(1) == "=";
  }

  /** The last group, if it is incomplete. */
  lemma {:induction false} ShortChunk(chars: seq<nat>, i: nat)
    requires i < |chars| <= i + 2
    ensures Encoded(LowBytes(chars)[i..]) == GroupChars(chars, i)
  {
    var s := LowBytes(chars)[i..];
    if |s| == 1 {
      assert s == [s[0]];
      EncodedOne(s[0]);
    } else {
      assert s == [s[0], s[1]];
      EncodedTwo(s[0], s[1]);
    }
  }

  lemma {:induction false} WholeChunk(chars: seq<nat>, i: nat)
    requires i + 3 <= |chars|
    ensures Chars(Digits(LowBytes(chars)[i..])[..4]) == GroupChars(chars, i)
  {
  }

  /** The encoding of the bytes from `i` on begins with the four characters of the group at `i`. */
  lemma {:induction false} ChunkEncoded(chars: seq<nat>, i: nat)
    requires i < |chars|
    ensures Encoded(LowBytes(chars)[i..])
         == GroupChars(chars, i) + (if i + 3 <= |chars| then Encoded(LowBytes(chars)[i + 3..]) else "")
  {
    if i + 3 <= |chars| {
      var s := LowBytes(chars)[i..];
      EncodedGroup(s);
      WholeChunk(chars, i);
      assert s[3..] == LowBytes(chars)[i + 3..];
    } else {
      ShortChunk(chars, i);
    }
  }

  method Btoa(chars: seq<nat>) returns (buffer: string)
    ensures buffer == Encoded(LowBytes(chars))
  {
    buffer := "";
    var i, n := 0, |chars|;
    ghost var all := LowBytes(chars);
    assert all[0..] == all;
    while i < n
      invariant 0 <= i
      invariant buffer + (if i <= n then Encoded(all[i..]) else "") == Encoded(all)
    {
      ghost var rest := if i + 3 <= n then Encoded(all[i + 3..]) else "";
      ChunkEncoded(chars, i);
      Associative(buffer, GroupChars(chars, i), rest);
      var b1 := chars[i] % 256;
      var b2 := if i + 1 < n then chars[i + 1] % 256 else 0;
      var b3 := if i + 2 < n then chars[i + 2] % 256 else 0;
      var d1, d2 := b1 / 4, (b1 % 4) * 16 + b2 / 16;
      var d3 := if i + 1 < n then (b2 % 16) * 4 + b3 / 64 else 64;
      var d4 := if i + 2 < n then b3 % 64 else 64;
      var group := [DigitChar(d1), DigitChar(d2), DigitChar(d3), DigitChar(d4)];
      assert group == GroupChars(chars, i);
      buffer := buffer + group;
      i := i + 3;
    }
    assert Encoded([]) == "";
  }

  // ---- atob --------------------------------------------------------------------------------------

  /** input.replace(/=+$/, '') */
  function StripPadding(input: string): string {
    if input != "" && input[|input| - 1] == '=' then StripPadding(input[..|input| - 1]) else input
  }

  /** The counter bc modulo 4: the digits of the current group so far. */
  type Phase = x: nat | x < 4

  function Next(q: Phase): Phase { if q == 3 then 0 else q + 1 }

  lemma {:induction false} NextCount(bc: nat)
    ensures (bc + 1) % 4 == Next(bc % 4)
  {
  }

  /** 255 & bs >> (-2 * bc & 6), for an advanced counter that is `q` modulo 4. */
  function Shifted(bs: nat, q: Phase): Byte {
    match q
    case 0 => bs % 256
    case 1 => (bs / 64) % 256
    case 2 => (bs / 16) % 256
    case 3 => (bs / 4) % 256
  }

  /** The streaming loop: one accumulator, one output byte for every digit but the first of a group. */
  function Stream(input: string, q: Phase, bs: nat): seq<Byte> {
    if input == "" then []
    else
      var k := DigitIndex(input[0]);
      if k == -1 then Stream(input[1..], q, bs)
      else if q == 0 then Stream(input[1..], 1, k)
      else [Shifted(bs * 64 + k, Next(q))] + Stream(input[1..], Next(q), bs * 64 + k)
  }

  /** The digits among the characters of the input. */
  function DigitsIn(input: string): seq<Digit>
    requires '=' !in input
  {
    if input == "" then []
    else
      var k := DigitIndex(input[0]);
      if k == -1 then DigitsIn(input[1..]) else [k as Digit] + DigitsIn(input[1..])
  }

  // ---- The stream refines the groups ---------------------------------------------------------------

  /** The accumulator after the digits `g` of an incomplete group. */
  function Value(g: seq<Digit>): nat {
    if g == [] then 0 else Value(g[..|g| - 1]) * 64 + g[|g| - 1]
  }

  lemma {:induction false} Modulo(v: nat, q: nat, r: nat)
    requires v == 256 * q + r && r < 256
    ensures v % 256 == r
  {
  }

  /** The bytes put out at the second, third and fourth digit of a group. */
  lemma {:induction false} SecondDigit(a: Digit, b: Digit)
    ensures ((a as nat * 64 + b) / 16) % 256 == FirstByte(a, b)
  {
    assert (a as nat * 64 + b) / 16 == a as nat * 4 + b as nat / 16;
  }

  lemma {:induction false} ThirdDigit(a: Digit, b: Digit, c: Digit)
    ensures (((a as nat * 64 + b) * 64 + c) / 4) % 256 == SecondByte(b, c)
  {
    var v := ((a as nat * 64 + b) * 64 + c) / 4;
    assert v == a as nat * 1024 + b as nat * 16 + c as nat / 4;
    Modulo(v, a as nat * 4 + b as nat / 16, SecondByte(b, c));
  }

  lemma {:induction false} FourthDigit(a: Digit, b: Digit, c: Digit, d: Digit)
    ensures (((a as nat * 64 + b) * 64 + c) * 64 + d) % 256 == ThirdByte(c, d)
  {
    Modulo(((a as nat * 64 + b) * 64 + c) * 64 + d, a as nat * 1024 + b as nat * 16 + c as nat / 4, ThirdByte(c, d));
  }

  lemma {:induction false} ValueAppend(g: seq<Digit>, k: Digit)
    ensures Value(g + [k]) == Value(g) * 64 + k
  {
    assert (g + [k])[..|g|] == g;
  }

  lemma {:induction false} ShortValues(a: Digit, b: Digit, c: Digit)
    ensures Value([]) == 0 && Value([a]) == a && Value([a, b]) == a as nat * 64 + b
    ensures Value([a, b, c]) == (a as nat * 64 + b) * 64 + c
  {
    ValueAppend([], a);
    ValueAppend([a], b);
    ValueAppend([a, b], c);
    assert [] + [a] == [a] && [a] + [b] == [a, b] && [a, b] + [c] == [a, b, c];
  }

  /** The byte that the digit `k` completes after the digits `g` of an incomplete group. */
  function OwedByte(g: seq<Digit>, k: Digit): Byte
    requires 1 <= |g| < 4
  {
    if |g| == 1 then FirstByte(g[0], k) else if |g| == 2 then SecondByte(g[1], k) else ThirdByte(g[2], k)
  }

  /** The byte that the accumulator puts out for that digit. */
  lemma {:induction false} ShiftedByte(g: seq<Digit>, k: Digit)
    requires 1 <= |g| < 4
    ensures Shifted(Value(g) * 64 + k, Next(|g|)) == OwedByte(g, k)
  {
    if |g| == 1 {
      ShortValues(g[0], 0, 0);
      assert g == [g[0]];
      SecondDigit(g[0], k);
    } else if |g| == 2 {
      ShortValues(g[0], g[1], 0);
      assert g == [g[0], g[1]];
      ThirdDigit(g[0], g[1], k);
    } else {
      ShortValues(g[0], g[1], g[2]);
      assert g == [g[0], g[1], g[2]];
      FourthDigit(g[0], g[1], g[2], k);
    }
  }

  /** One more digit in a group: the longer group decodes to one more byte, unless the digit is its first. */
  lemma {:induction false} LongerGroup(g: seq<Digit>, k: Digit)
    requires |g| < 4
    ensures DecodeGroups(g + [k]) == DecodeGroups(g) + (if g == [] then [] else [OwedByte(g, k)])
  {
    var longer := g + [k];
    assert forall i :: 0 <= i < |g| ==> longer[i] == g[i];
    if |g| == 3 {
      assert longer[4..] == [];
    }
  }

  /** A digit ahead in the input: what is put out for it is the byte that it completes in its group. */
  lemma {:induction false} DigitAhead(input: string, g: seq<Digit>, bs: nat, k: Digit)
    requires input != "" && |g| < 4 && (g != [] ==> bs == Value(g)) && DigitIndex(input[0]) == k
    ensures Stream(input, |g|, bs)
         == (if g == [] then [] else [OwedByte(g, k)]) + Stream(input[1..], Next(|g|), Value(g + [k]))
  {
    ValueAppend(g, k);
    if g != [] {
      ShiftedByte(g, k);
    }
  }

  /** From the middle of a group on, the stream puts out what group-by-group decoding still owes. */
  lemma {:induction false} StreamFrom(input: string, bs: nat, g: seq<Digit>)
    requires '=' !in input && |g| < 4 && (g != [] ==> bs == Value(g))
    ensures DecodeGroups(g) + Stream(input, |g|, bs) == DecodeGroups(g + DigitsIn(input))
    decreases |input|, 0
  {
    if input == "" {
      assert g + [] == g;
    } else {
      var k := DigitIndex(input[0]);
      if k == -1 {
        StreamFrom(input[1..], bs, g);
      } else {
        StreamDigit(input, bs, g, k);
      }
    }
  }

  lemma {:induction false} StreamDigit(input: string, bs: nat, g: seq<Digit>, k: Digit)
    requires input != "" && '=' !in input && |g| < 4 && (g != [] ==> bs == Value(g))
    requires DigitIndex(input[0]) == k
    ensures DecodeGroups(g) + Stream(input, |g|, bs) == DecodeGroups(g + DigitsIn(input))
    decreases |input| - 1, 2
  {
    RestOfStream(input[1..], Value(g + [k]), g + [k]);
    LongerGroup(g, k);
    DigitAhead(input, g, bs, k);
    var put: seq<Byte> := if g == [] then [] else [OwedByte(g, k)];
    Associative(DecodeGroups(g), put, Stream(input[1..], Next(|g|), Value(g + [k])));
    DigitsAhead(input, g, k);
  }

  lemma {:induction false} DigitsAhead(input: string, g: seq<Digit>, k: Digit)
    requires input != "" && '=' !in input && DigitIndex(input[0]) == k
    ensures (g + [k]) + DigitsIn(input[1..]) == g + DigitsIn(input)
  {
  }

  /** The rest of the stream, also when the digits `g` complete a group. */
  lemma {:induction false} RestOfStream(input: string, bs: nat, g: seq<Digit>)
    requires '=' !in input && 1 <= |g| <= 4 && bs == Value(g)
    ensures DecodeGroups(g) + Stream(input, Next(|g| - 1), bs) == DecodeGroups(g + DigitsIn(input))
    decreases |input|, 1
  {
    if |g| < 4 {
      StreamFrom(input, bs, g);
    } else {
      StreamFrom(input, bs, []);
      CompleteGroup(g, DigitsIn(input), Stream(input, 0, bs));
    }
  }

  lemma {:induction false} CompleteGroup(group: seq<Digit>, rest: seq<Digit>, owed: seq<Byte>)
    requires |group| == 4 && DecodeGroups([]) + owed == DecodeGroups([] + rest)
    ensures DecodeGroups(group) + owed == DecodeGroups(group + rest)
  {
    assert [] + rest == rest;
    assert (group + rest)[4..] == rest && group[4..] == [];
    assert owed == DecodeGroups(rest);
  }

  /** The accumulator loop decodes its digits group by group, and skips all other characters. */
  lemma {:induction false} StreamRefinesGroups(input: string)
    requires '=' !in input
    ensures Stream(input, 0, 0) == DecodeGroups(DigitsIn(input))
  {
    StreamFrom(input, 0, []);
    assert [] + DigitsIn(input) == DigitsIn(input);
  }

  /** One turn of the loop. */
  lemma {:induction false} StreamStep(input: string, idx: nat, q: Phase, bs: nat, out: seq<Byte>)
    requires idx < |input|
    ensures var k, rest := DigitIndex(input[idx]), input[idx + 1..];
            out + Stream(input[idx..], q, bs)
            == if k == -1 then out + Stream(rest, q, bs)
               else if q != 0 then (out + [Shifted(bs * 64 + k, Next(q))]) + Stream(rest, Next(q), bs * 64 + k)
               else out + Stream(rest, 1, k)
  {
    assert input[idx..][0] == input[idx] && input[idx..][1..] == input[idx + 1..];
  }

  /** atob: None stands for the error thrown for an input of impossible length. */
  method Atob(input: string) returns (output: Option<seq<Byte>>)
    ensures output == if |StripPadding(input)| % 4 == 1 then None else Some(Stream(StripPadding(input), 0, 0))
    ensures output.Some? && '=' !in StripPadding(input) ==> output.value == DecodeGroups(DigitsIn(StripPadding(input)))
  {
    var stripped := StripPadding(input);
    if |stripped| % 4 == 1 {
      return None;
    }
    var bc: nat, bs: nat, idx: nat, out: seq<Byte> := 0, 0, 0, [];
    assert stripped[0..] == stripped;
    while idx < |stripped|
      invariant idx <= |stripped|
      invariant out + Stream(stripped[idx..], bc % 4, bs) == Stream(stripped, 0, 0)
    {
      StreamStep(stripped, idx, bc % 4, bs, out);
      NextCount(bc);
      var c := stripped[idx];
      idx := idx + 1;
      var buffer := DigitIndex(c);
      if buffer != -1 {
        bs := if bc % 4 != 0 then bs * 64 + buffer else buffer;
        if bc % 4 != 0 {
          out := out + [Shifted(bs, (bc + 1) % 4)];
        }
        bc := bc + 1;
      }
    }
    assert stripped[idx..] == "" && out + [] == out;
    if '=' !in stripped {
      StreamRefinesGroups(stripped);
    }
    return Some(out);
  }

  // ---- Round trip ------------------------------------------------------------------------------------

  lemma {:induction false} DigitsInChars(d: seq<Digit>)
    ensures '=' !in Chars(d)
    ensures DigitsIn(Chars(d)) == d
  {
    if d != [] {
      DigitsInChars(d[1..]);
      DigitRoundTrip(d[0]);
      assert Chars(d)[1..] == Chars(d[1..]);
    }
  }

  lemma {:induction false} StripPadded(s: string, k: nat)
    requires '=' !in s
    ensures StripPadding(s + Padding(k)) == s
  {
    if k == 0 {
      assert s + Padding(0) == s;
    } else {
      PaddingLast(k);
      var t := s + Padding(k);
      assert t[|t| - 1] == '=';
      assert t[..|t| - 1] == s + Padding(k - 1);
      StripPadded(s, k - 1);
    }
  }

  lemma {:induction false} PaddingLast(k: nat)
    requires k > 0
    ensures Padding(k) == Padding(k - 1) + "="
  {
    if k > 1 {
      PaddingLast(k - 1);
    }
  }

  /** Decoding an encoded string, with any number of padding characters, gives back its bytes. */
  lemma {:induction false} RoundTrip(s: seq<Byte>, k: nat)
    ensures var t := StripPadding(Chars(Digits(s)) + Padding(k));
            |t| % 4 != 1 && Stream(t, 0, 0) == s
  {
    DigitsInChars(Digits(s));
    StripPadded(Chars(Digits(s)), k);
    NoSingleDigit(s);
    StreamRefinesGroups(Chars(Digits(s)));
    GroupsRoundTrip(s);
  }

  /**
   * btoa, then any removal of padding, then atob: the low bytes come back, so the string itself comes
   * back if and only if all its code units are bytes.
   */
  method BtoaThenAtob(chars: seq<nat>, dropped: nat) returns (encoded: string, decoded: Option<seq<Byte>>)
    requires dropped <= PaddingLength(|chars|)
    ensures |encoded| == 4 * ((|chars| + 2) / 3)
    ensures decoded == Some(LowBytes(chars))
    ensures decoded.value == chars <==> forall i :: 0 <= i < |chars| ==> chars[i] < 256
  {
    encoded := Btoa(chars);
    DigitCount(LowBytes(chars));
    DropPadding(LowBytes(chars), dropped);
    AllBytes(chars);
    decoded := Atob(encoded[..|encoded| - dropped]);
  }

  lemma {:induction false} AllBytes(chars: seq<nat>)
    ensures LowBytes(chars) == chars <==> forall i :: 0 <= i < |chars| ==> chars[i] < 256
  {
    var low: seq<nat> := LowBytes(chars);
    if low == chars {
      assert forall i :: 0 <= i < |chars| ==> chars[i] == low[i] < 256;
    }
  }

  lemma {:induction false} DropPadding(bytes: seq<Byte>, dropped: nat)
    requires dropped <= PaddingLength(|bytes|)
    ensures var t := StripPadding(Encoded(bytes)[..|Encoded(bytes)| - dropped]);
            |t| % 4 != 1 && Stream(t, 0, 0) == bytes
  {
    var k := PaddingLength(|bytes|);
    PaddingPrefix(k, dropped);
    assert Encoded(bytes)[..|Encoded(bytes)| - dropped] == Chars(Digits(bytes)) + Padding(k - dropped);
    RoundTrip(bytes, k - dropped);
  }

  lemma {:induction false} PaddingPrefix(k: nat, dropped: nat)
    requires dropped <= k
    ensures Padding(k)[..k - dropped] == Padding(k - dropped)
  {
    if dropped > 0 {
      PaddingLast(k);
      PaddingPrefix(k - 1, dropped - 1);
    }
  }
}
