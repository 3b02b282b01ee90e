/** Base64 text encoding of byte strings, section 4 of RFC 4648.
    Shifts and masks on bytes are written as the division, remainder and multiplication they
    denote: `c >> k` is `c / 2^k`, `c & (2^k - 1)` is `c % 2^k`, and an `|` of disjoint bit
    fields is a sum. */
module Base64 {
  type Byte = b: int | 0 <= b < 256

  datatype Result = Ok(bytes: seq<Byte>) | Invalid

  const PAD: char := '='

  /** The value a padding symbol takes in the four-element work buffer. */
  const PAD_SEXTET: int := 64

  predicate IsBase64Char(c: char) {
    'a' <= c <= 'z' || 'A' <= c <= 'Z' || '0' <= c <= '9' || c == '+' || c == '/'
  }

  /** The character at index `i` of the alphabet: upper case, lower case, digits, `+` and `/`. */
  function Letter(i: int): (c: char)
    requires 0 <= i < 64
    ensures IsBase64Char(c) && c != PAD
  {
    if i < 26 then (i + 'A' as int) as char
    else if i < 52 then (i - 26 + 'a' as int) as char
    else if i < 62 then (i - 52 + '0' as int) as char
    else if i == 62 then '+' else '/'
  }

  /** The position of the first occurrence of `c` in the alphabet at or after `from`, 64 if none. */
  function FindChar(c: char, from: nat): (i: int)
    requires from <= 64
    ensures from <= i <= 64
    ensures i < 64 ==> Letter(i) == c
    ensures forall j :: from <= j < i ==> Letter(j) != c
    decreases 64 - from
  {
    if from == 64 then 64 else if Letter(from) == c then from else FindChar(c, from + 1)
  }

  function Sextet(c: char): (i: int)
    ensures 0 <= i <= 64
    ensures i < 64 ==> Letter(i) == c
    ensures IsBase64Char(c) ==> i < 64
  {
    SextetOfBase64Char(c);
    FindChar(c, 0)
  }

  lemma SextetOfBase64Char(c: char)
    ensures IsBase64Char(c) ==> FindChar(c, 0) < 64
  {
    if IsBase64Char(c) {
      var i: nat := if 'A' <= c <= 'Z' then c as int - 'A' as int
                    else if 'a' <= c <= 'z' then c as int - 'a' as int + 26
                    else if '0' <= c <= '9' then c as int - '0' as int + 52
                    else if c == '+' then 62 else 63;
      assert Letter(i) == c;
    }
  }

  lemma UpperCase(i: nat)
    requires i < 26
    ensures Letter(i) == "ABCDEFGHIJKLMNOPQRSTUVWXYZ"[i]
  {}

  lemma LowerCase(i: nat)
    requires i < 26
    ensures Letter(26 + i) == "abcdefghijklmnopqrstuvwxyz"[i]
  {}

  lemma DigitsAndSigns(i: nat)
    requires i < 12
    ensures Letter(52 + i) == "0123456789+/"[i]
  {}

  /** `Letter` reads off the three string literals of the alphabet. */
  lemma LetterIsTable(i: nat)
    ensures i < 26 ==> Letter(i) == "ABCDEFGHIJKLMNOPQRSTUVWXYZ"[i]
    ensures i < 26 ==> Letter(26 + i) == "abcdefghijklmnopqrstuvwxyz"[i]
    ensures i < 12 ==> Letter(52 + i) == "0123456789+/"[i]
  {
    hide Letter;
    if i < 26 {
      UpperCase(i);
      LowerCase(i);
    }
    if i < 12 { DigitsAndSigns(i); }
  }

  lemma SextetOfLetter(i: int)
    requires 0 <= i < 64
    ensures Sextet(Letter(i)) == i
  {}

  // ----- Encoding -----

  type Six = v: int | 0 <= v < 64

  function Six0(a: int): Six requires 0 <= a < 256 { a / 4 }
  function Six1(a: int, b: int): Six requires 0 <= a < 256 && 0 <= b < 256 { a % 4 * 16 + b / 16 }
  function Six2(b: int, c: int): Six requires 0 <= b < 256 && 0 <= c < 256 { b % 16 * 4 + c / 64 }
  function Six3(c: int): Six requires 0 <= c < 256 { c % 64 }

  function EncodeTriple(a: Byte, b: Byte, c: Byte): (s: string)
    ensures |s| == 4
  {
    [Letter(Six0(a)), Letter(Six1(a, b)), Letter(Six2(b, c)), Letter(Six3(c))]
  }

  function EncodeTail(tail: seq<Byte>): (s: string)
    requires 1 <= |tail| <= 2
    ensures |s| == 4
  {
    if |tail| == 1 then
      [Letter(Six0(tail[0])), Letter(Six1(tail[0], 0)), PAD, PAD]
    else
      [Letter(Six0(tail[0])), Letter(Six1(tail[0], tail[1])), Letter(Six2(tail[1], 0)), PAD]
  }

  function Encode(raw: seq<Byte>): (s: string)
  {
    if |raw| == 0 then ""
    else if |raw| < 3 then EncodeTail(raw)
    else EncodeTriple(raw[0], raw[1], raw[2]) + Encode(raw[3..])
  }

  /** The 24 bits of three bytes. */
  function Bits(a: int, b: int, c: int): int {
    a * 65536 + b * 256 + c
  }

  /** A number of 24 bits as four digits to the base 64, the most significant first. */
  function Spelled(n: int): (s: string)
    requires 0 <= n < 0x100_0000
    ensures |s| == 4
  {
    [Letter(n / 262144), Letter(n / 4096 % 64), Letter(n / 64 % 64), Letter(n % 64)]
  }

  lemma DigitsOf(d0: int, d1: int, d2: int, d3: int)
    requires 0 <= d0 < 64 && 0 <= d1 < 64 && 0 <= d2 < 64 && 0 <= d3 < 64
    ensures var n := d0 * 262144 + d1 * 4096 + d2 * 64 + d3;
            && 0 <= n < 0x100_0000 && n / 262144 == d0 && n / 4096 == d0 * 64 + d1 && n / 64 == d0 * 4096 + d1 * 64 + d2
            && n / 4096 % 64 == d1 && n / 64 % 64 == d2 && n % 64 == d3
  {}

  lemma SextetSum(a: Byte, b: Byte, c: Byte)
    ensures Six0(a) as int * 262144 + Six1(a, b) as int * 4096 + Six2(b, c) as int * 64 + Six3(c) as int == Bits(a, b, c)
  {}

  lemma SextetsAreDigits(a: Byte, b: Byte, c: Byte)
    ensures var n := Bits(a, b, c);
            && 0 <= n < 0x100_0000 && Six0(a) == n / 262144 && Six1(a, b) == n / 4096 % 64
            && Six2(b, c) == n / 64 % 64 && Six3(c) == n % 64
  {
    hide Six0, Six1, Six2, Six3, Bits;
    SextetSum(a, b, c);
    DigitsOf(Six0(a), Six1(a, b), Six2(b, c), Six3(c));
  }

  /** The values of a group are digits to the base 64 of the bytes it is decoded to. */
  lemma BytesAreDigits(v0: Six, v1: Six, v2: Six, v3: Six)
    ensures Bits(FirstByte(v0, v1), SecondByte(v1, v2), ThirdByte(v2, v3)) == ((v0 as int * 64 + v1 as int) * 64 + v2 as int) * 64 + v3 as int
  {}

  lemma TripleSpelled(a: Byte, b: Byte, c: Byte)
    ensures 0 <= Bits(a, b, c) < 0x100_0000 && EncodeTriple(a, b, c) == Spelled(Bits(a, b, c))
  {
    hide Letter, Six0, Six1, Six2, Six3, Bits;
    SextetsAreDigits(a, b, c);
  }

  /** Group `j` of an encoding spells out the 24 bits of the three bytes it stands for. */
  lemma {:induction false} EncodeSpellsOut(raw: seq<Byte>, j: nat)
    requires 3 * j + 3 <= |raw|
    ensures var n := Bits(raw[3 * j], raw[3 * j + 1], raw[3 * j + 2]);
            4 * j + 4 <= |Encode(raw)| && 0 <= n < 0x100_0000 && Encode(raw)[4 * j..4 * j + 4] == Spelled(n)
  {
    hide EncodeTriple, Spelled, Bits;
    TripleSpelled(raw[0], raw[1], raw[2]);
    var rest := raw[3..];
    assert Encode(raw) == EncodeTriple(raw[0], raw[1], raw[2]) + Encode(rest);
    if j > 0 {
      EncodeSpellsOut(rest, j - 1);
      var at := 4 * (j - 1);
      assert Encode(raw)[at + 4..at + 8] == Encode(rest)[at..at + 4];
    }
  }

  /** One or two bytes at the end are spelled out with zero bytes behind them, of which padding tells. */
  lemma TailSpellsOut(tail: seq<Byte>)
    requires 1 <= |tail| <= 2
    ensures var n := Bits(tail[0], if |tail| == 1 then 0 else tail[1], 0);
            0 <= n < 0x100_0000 && EncodeTail(tail) == if |tail| == 1 then Spelled(n)[..2] + "==" else Spelled(n)[..3] + "="
  {
    hide Letter, Six0, Six1, Six2, Bits;
    SextetsAreDigits(tail[0], if |tail| == 1 then 0 else tail[1], 0);
  }

  lemma {:induction false} EncodedLength(raw: seq<Byte>)
    ensures |Encode(raw)| == (|raw| + 2) / 3 * 4
  {
    if |raw| >= 3 {
      EncodedLength(raw[3..]);
      assert (|raw| + 2) / 3 == (|raw| - 3 + 2) / 3 + 1;
    }
  }

  lemma LengthFormula(n: nat)
    ensures n / 3 * 4 + (if n % 3 == 0 then 0 else 4) == (n + 2) / 3 * 4
  {}

  method PutGroup(buffer: array<char>, at: nat, group: string)
    requires |group| == 4 && at + 4 <= buffer.Length
    modifies buffer
    ensures buffer[..at + 4] == old(buffer[..at]) + group
  {
    buffer[at], buffer[at + 1] := group[0], group[1];
    buffer[at + 2], buffer[at + 3] := group[2], group[3];
  }

  method EncodeToBase64(raw: seq<Byte>) returns (encoded: string)
    ensures encoded == Encode(raw)
  {
    hide EncodeTriple, EncodeTail;
    var length := |raw| / 3 * 4 + (if |raw| % 3 == 0 then 0 else 4);
    assert length == |Encode(raw)| by { EncodedLength(raw); LengthFormula(|raw|); }
    var buffer := new char[length];
    var r, e := 0, 0;
    assert raw[0..] == raw;
    while r + 3 <= |raw|
      invariant 0 <= r <= |raw| && 0 <= e <= length
      invariant length - e == |Encode(raw[r..])|
      invariant buffer[..e] + Encode(raw[r..]) == Encode(raw)
    {
      assert raw[r..][3..] == raw[r + 3..];
      PutGroup(buffer, e, EncodeTriple(raw[r], raw[r + 1], raw[r + 2]));
      r, e := r + 3, e + 4;
    }
    if r < |raw| {
      PutGroup(buffer, e, EncodeTail(raw[r..]));
      e := e + 4;
    }
    assert buffer[..] == buffer[..e];
    encoded := buffer[..];
  }

  // ----- Decoding -----

  /** The work-buffer value of the character at position `i` of a group, or -1 if it is illegal
      there: padding stands only in the last two positions of the last group. */
  function GroupValue(c: char, i: nat, isLast: bool): (v: int)
    ensures -1 <= v <= 64
    ensures v == PAD_SEXTET ==> c == PAD && isLast && i > 1
    ensures 0 <= v < 64 ==> Letter(v) == c
  {
    if c == PAD && isLast && i > 1 then PAD_SEXTET
    else if IsBase64Char(c) then Sextet(c)
    else -1
  }

  function FirstByte(v0: int, v1: int): (b: Byte)
    requires 0 <= v0 < 64 && 0 <= v1 < 64
  {
    v0 * 4 + v1 / 16
  }

  function SecondByte(v1: int, v2: int): (b: Byte)
    requires 0 <= v1 < 64 && 0 <= v2 < 64
  {
    v1 % 16 * 16 + v2 / 4
  }

  function ThirdByte(v2: int, v3: int): (b: Byte)
    requires 0 <= v2 < 64 && 0 <= v3 < 64
  {
    v2 % 4 * 64 + v3
  }

  /** The bytes of one group, given the values of its characters and what the groups behind it give. */
  function FromValues(v0: int, v1: int, v2: int, v3: int, rest: Result): Result
    requires v0 < 64 && v1 < 64 && v2 <= 64 && v3 <= 64
  {
    if v0 < 0 || v1 < 0 || v2 < 0 || v3 < 0 then Invalid
    else if v2 == PAD_SEXTET then Ok([FirstByte(v0, v1)])
    else if v3 == PAD_SEXTET then Ok([FirstByte(v0, v1), SecondByte(v1, v2)])
    else Prepend([FirstByte(v0, v1), SecondByte(v1, v2), ThirdByte(v2, v3)], rest)
  }

  function DecodeGroups(s: string): (r: Result)
    requires |s| % 4 == 0
  {
    if |s| == 0 then Ok([]) else
    var isLast := |s| == 4;
    FromValues(GroupValue(s[0], 0, isLast), GroupValue(s[1], 1, isLast), GroupValue(s[2], 2, isLast),
               GroupValue(s[3], 3, isLast), DecodeGroups(s[4..]))
  }

  function Prepend(front: seq<Byte>, r: Result): Result {
    if r.Ok? then Ok(front + r.bytes) else Invalid
  }

  function Decode(s: string): (r: Result) {
    if |s| % 4 != 0 then Invalid else DecodeGroups(s)
  }

  /** Fills the work buffer from the four characters of a group, giving up at an illegal one. */
  method ReadGroup(chars: string, isLast: bool) returns (legal: bool, group: seq<int>)
    requires |chars| == 4
    ensures legal <==> forall j :: 0 <= j < 4 ==> GroupValue(chars[j], j, isLast) >= 0
    ensures legal ==> |group| == 4 && forall j :: 0 <= j < 4 ==> group[j] == GroupValue(chars[j], j, isLast)
  {
    hide GroupValue;
    group := [];
    for i := 0 to 4
      invariant |group| == i
      invariant forall j :: 0 <= j < i ==> 0 <= group[j] == GroupValue(chars[j], j, isLast)
    {
      var v := GroupValue(chars[i], i, isLast);
      if v < 0 {
        return false, group;
      }
      group := group + [v];
    }
    legal := true;
  }

  ghost predicate ReadsAs(rest: string, group: seq<int>)
    requires |rest| >= 4
  {
    |group| == 4 && forall j :: 0 <= j < 4 ==> 0 <= group[j] == GroupValue(rest[j], j, |rest| == 4)
  }

  lemma PrependValues(before: seq<Byte>, v0: Six, v1: Six, v2: int, v3: int, rest: Result)
    requires 0 <= v2 <= 64 && 0 <= v3 <= 64
    ensures var b0 := FirstByte(v0, v1);
            Prepend(before, FromValues(v0, v1, v2, v3, rest)) ==
            if v2 == PAD_SEXTET then Ok(before + [b0])
            else var b1 := SecondByte(v1, v2);
              if v3 == PAD_SEXTET then Ok(before + [b0] + [b1])
              else Prepend(before + [b0] + [b1] + [ThirdByte(v2, v3)], rest)
  {
    hide FirstByte, SecondByte, ThirdByte;
    if v2 != PAD_SEXTET {
      var b0, b1 := FirstByte(v0, v1), SecondByte(v1, v2);
      assert before + [b0, b1] == before + [b0] + [b1];
      if v3 != PAD_SEXTET && rest.Ok? {
        var b2 := ThirdByte(v2, v3);
        assert before + ([b0, b1, b2] + rest.bytes) == (before + [b0] + [b1] + [b2]) + rest.bytes;
      }
    }
  }

  /** What decoding the next group adds to the bytes decoded before it. */
  lemma DecodeNextGroup(before: seq<Byte>, rest: string, group: seq<int>)
    requires |rest| % 4 == 0 && |rest| >= 4 && ReadsAs(rest, group)
    ensures var b0 := FirstByte(group[0], group[1]);
            Prepend(before, DecodeGroups(rest)) ==
            if group[2] == PAD_SEXTET then Ok(before + [b0])
            else var b1 := SecondByte(group[1], group[2]);
              if group[3] == PAD_SEXTET then Ok(before + [b0] + [b1])
              else Prepend(before + [b0] + [b1] + [ThirdByte(group[2], group[3])], DecodeGroups(rest[4..]))
  {
    hide GroupValue, FirstByte, SecondByte, ThirdByte, FromValues, Prepend;
    PrependValues(before, group[0], group[1], group[2], group[3], DecodeGroups(rest[4..]));
  }

  method DecodeFromBase64(s: string) returns (r: Result)
    ensures r == Decode(s)
  {
    hide GroupValue, FirstByte, SecondByte, ThirdByte, DecodeGroups;
    if |s| % 4 != 0 {
      return Invalid;
    }
    var decoded: seq<Byte> := [];
    ghost var rest := s;
    var index := 0;
    while index < |s|
      invariant 0 <= index <= |s| && rest == s[index..] && |rest| % 4 == 0
      invariant Prepend(decoded, DecodeGroups(rest)) == DecodeGroups(s)
    {
      assert rest[4..] == s[index + 4..] && rest[..4] == s[index..index + 4];
      var legal, group := ReadGroup(s[index..index + 4], index >= |s| - 4);
      if !legal {
        DecodeIllegalGroup(rest);
        return Invalid;
      }
      DecodeNextGroup(decoded, rest, group);
      decoded := decoded + [FirstByte(group[0], group[1])];
      if group[2] >= PAD_SEXTET {
        return Ok(decoded);
      } else if group[3] >= PAD_SEXTET {
        decoded := decoded + [SecondByte(group[1], group[2])];
        return Ok(decoded);
      }
      decoded := decoded + [SecondByte(group[1], group[2])];
      decoded := decoded + [ThirdByte(group[2], group[3])];
      index := index + 4;
      rest := rest[4..];
    }
    DecodeNothing();
    return Ok(decoded);
  }

  lemma IllegalValues(v0: int, v1: int, v2: int, v3: int, rest: Result)
    requires v0 < 64 && v1 < 64 && v2 <= 64 && v3 <= 64 && (v0 < 0 || v1 < 0 || v2 < 0 || v3 < 0)
    ensures FromValues(v0, v1, v2, v3, rest) == Invalid
  {}

  lemma DecodeIllegalGroup(rest: string)
    requires |rest| % 4 == 0 && |rest| >= 4
    requires exists j :: 0 <= j < 4 && GroupValue(rest[j], j, |rest| == 4) < 0
    ensures DecodeGroups(rest) == Invalid
  {
    hide GroupValue, FromValues, IsBase64Char;
    var isLast := |rest| == 4;
    var j :| 0 <= j < 4 && GroupValue(rest[j], j, isLast) < 0;
    IllegalValues(GroupValue(rest[0], 0, isLast), GroupValue(rest[1], 1, isLast), GroupValue(rest[2], 2, isLast),
                  GroupValue(rest[3], 3, isLast), DecodeGroups(rest[4..]));
  }

  // ----- Round trips -----

  /** The three bytes of a group come back from its four sextets. */
  lemma GroupRoundTrip(a: Byte, b: Byte, c: Byte)
    ensures FirstByte(Six0(a), Six1(a, b)) == a
    ensures SecondByte(Six1(a, b), Six2(b, c)) == b
    ensures ThirdByte(Six2(b, c), Six3(c)) == c
  {}

  lemma ValueOfLetter(v: Six, i: nat, isLast: bool)
    ensures GroupValue(Letter(v), i, isLast) == v
  {
    SextetOfLetter(v);
  }

  /** One unpadded group decodes to three bytes in front of the rest. */
  lemma DecodeUnpaddedGroup(v0: Six, v1: Six, v2: Six, v3: Six, rest: string)
    requires |rest| % 4 == 0
    ensures DecodeGroups([Letter(v0), Letter(v1), Letter(v2), Letter(v3)] + rest) ==
            Prepend([FirstByte(v0, v1), SecondByte(v1, v2), ThirdByte(v2, v3)], DecodeGroups(rest))
  {
    var s := [Letter(v0), Letter(v1), Letter(v2), Letter(v3)] + rest;
    var isLast := |s| == 4;
    ValueOfLetter(v0, 0, isLast);
    ValueOfLetter(v1, 1, isLast);
    ValueOfLetter(v2, 2, isLast);
    ValueOfLetter(v3, 3, isLast);
    assert s[4..] == rest;
  }

  lemma DecodePaddedGroups(v0: Six, v1: Six, v2: Six)
    ensures DecodeGroups([Letter(v0), Letter(v1), PAD, PAD]) == Ok([FirstByte(v0, v1)])
    ensures DecodeGroups([Letter(v0), Letter(v1), Letter(v2), PAD]) == Ok([FirstByte(v0, v1), SecondByte(v1, v2)])
  {
    ValueOfLetter(v0, 0, true);
    ValueOfLetter(v1, 1, true);
    ValueOfLetter(v2, 2, true);
  }

  lemma DecodeTail(tail: seq<Byte>)
    requires 1 <= |tail| <= 2
    ensures DecodeGroups(EncodeTail(tail)) == Ok(tail)
  {
    hide Letter, DecodeGroups, Six0, Six1, Six2, FirstByte, SecondByte;
    var a, b := tail[0], if |tail| == 1 then 0 else tail[1];
    DecodePaddedGroups(Six0(a), Six1(a, b), Six2(b, 0));
    GroupRoundTrip(a, b, 0);
  }

  lemma DecodeNothing()
    ensures DecodeGroups([]) == Ok([])
  {}

  /** Decoding undoes encoding, on every byte string. */
  lemma {:induction false} DecodeOfEncode(raw: seq<Byte>)
    ensures Decode(Encode(raw)) == Ok(raw)
  {
    hide Letter, DecodeGroups, Six0, Six1, Six2, Six3, FirstByte, SecondByte, ThirdByte;
    EncodedLength(raw);
    if |raw| == 0 {
      DecodeNothing();
    } else if |raw| < 3 {
      DecodeTail(raw);
    } else {
      var a, b, c := raw[0], raw[1], raw[2];
      DecodeOfEncode(raw[3..]);
      EncodedLength(raw[3..]);
      DecodeUnpaddedGroup(Six0(a), Six1(a, b), Six2(b, c), Six3(c), Encode(raw[3..]));
      GroupRoundTrip(a, b, c);
      assert raw == [a, b, c] + raw[3..];
    }
  }

  lemma TripleUnpadded(a: Byte, b: Byte, c: Byte, i: nat)
    requires i < 4
    ensures EncodeTriple(a, b, c)[i] != PAD
  {
    hide Letter, Six0, Six1, Six2, Six3;
  }

  lemma TailPadded(tail: seq<Byte>, i: nat)
    requires 1 <= |tail| <= 2 && i < 4
    ensures EncodeTail(tail)[i] == PAD <==> i > |tail|
  {
    hide Letter, Six0, Six1, Six2;
  }

  /** Padding stands only at the end, and its amount is what completes the last group. */
  lemma {:induction false} PaddingOnlyAtEnd(raw: seq<Byte>)
    ensures var s := Encode(raw);
            forall i :: 0 <= i < |s| ==> (s[i] == PAD <==> i >= |s| - (3 - |raw| % 3) % 3)
  {
    hide EncodeTriple, EncodeTail;
    var s := Encode(raw);
    if |raw| >= 3 {
      var rest := raw[3..];
      PaddingOnlyAtEnd(rest);
      EncodedLength(rest);
      assert |rest| % 3 == |raw| % 3;
      forall i | 0 <= i < |s| ensures s[i] == PAD <==> i >= |s| - (3 - |raw| % 3) % 3 {
        if i < 4 { TripleUnpadded(raw[0], raw[1], raw[2], i); } else { assert s[i] == Encode(rest)[i - 4]; }
      }
    } else if |raw| > 0 {
      forall i | 0 <= i < 4 ensures s[i] == PAD <==> i > |raw| { TailPadded(raw, i); }
    }
  }

  /** Exactly the texts decoding accepts. */
  ghost predicate WellFormed(s: string) {
    && |s| % 4 == 0
    && forall i :: 0 <= i < |s| ==> WellFormedAt(s, i)
  }

  ghost predicate WellFormedAt(s: string, i: nat)
    requires i < |s|
  {
    IsBase64Char(s[i]) || (s[i] == PAD && i >= |s| - 2)
  }

  /** Dropping an accepted first group that is not the last one changes nothing about the others. */
  lemma WellFormedRest(s: string)
    requires |s| % 4 == 0 && |s| > 4
    ensures WellFormed(s) <==> (forall i :: 0 <= i < 4 ==> IsBase64Char(s[i])) && WellFormed(s[4..])
  {
    var t := s[4..];
    assert forall i :: 0 <= i < |t| ==> t[i] == s[i + 4];
    assert forall i :: 4 <= i < |s| ==> s[i] == t[i - 4];
    if WellFormed(s) {
      forall i | 0 <= i < 4 ensures IsBase64Char(s[i]) { assert WellFormedAt(s, i); }
      forall i | 0 <= i < |t| ensures WellFormedAt(t, i) { assert WellFormedAt(s, i + 4); }
    }
    if (forall i :: 0 <= i < 4 ==> IsBase64Char(s[i])) && WellFormed(t) {
      forall i | 0 <= i < |s| ensures WellFormedAt(s, i) {
        if i >= 4 { assert WellFormedAt(t, i - 4); }
      }
    }
  }

  lemma {:induction false} DecodeAccepts(s: string)
    ensures Decode(s).Ok? <==> WellFormed(s)
  {
    hide Letter, FirstByte, SecondByte, ThirdByte, FindChar;
    if |s| % 4 == 0 && |s| > 4 {
      WellFormedRest(s);
      DecodeAccepts(s[4..]);
    } else if |s| == 4 {
      assert WellFormed(s) <==> WellFormedAt(s, 0) && WellFormedAt(s, 1) && WellFormedAt(s, 2) && WellFormedAt(s, 3);
      assert DecodeGroups(s[4..]) == Ok([]);
    }
  }

  /** An accepted text is canonical when padding runs to the end of its last group and the bits
      the decoder throws away are zero. */
  ghost predicate Canonical(s: string)
    requires WellFormed(s)
  {
    |s| > 0 ==>
      var c1, c2, c3 := s[|s| - 3], s[|s| - 2], s[|s| - 1];
      && (c2 == PAD ==> c3 == PAD && Sextet(c1) % 16 == 0)
      && (c2 != PAD && c3 == PAD ==> Sextet(c2) % 4 == 0)
  }

  lemma SextetRoundTrip(v0: Six, v1: Six, v2: Six, v3: Six)
    ensures Six0(FirstByte(v0, v1)) == v0
    ensures Six1(FirstByte(v0, v1), SecondByte(v1, v2)) == v1
    ensures Six2(SecondByte(v1, v2), ThirdByte(v2, v3)) == v2
    ensures Six3(ThirdByte(v2, v3)) == v3
    ensures Six1(FirstByte(v0, v1), 0) == v1 <==> v1 % 16 == 0
    ensures Six2(SecondByte(v1, v2), 0) == v2 <==> v2 % 4 == 0
  {}

  lemma LetterInjective(u: Six, v: Six)
    ensures Letter(u) == Letter(v) <==> u == v
  {}

  /** The last group, when it is padded. */
  lemma EncodeOfDecodePadded(s: string)
    requires |s| == 4 && WellFormed(s) && PAD in s
    ensures Decode(s).Ok?
    ensures Encode(Decode(s).bytes) == s <==> Canonical(s)
  {
    hide Letter, FirstByte, SecondByte, ThirdByte, Six0, Six1, Six2, Six3, Sextet;
    assert WellFormedAt(s, 0) && WellFormedAt(s, 1) && WellFormedAt(s, 2) && WellFormedAt(s, 3);
    var v0: Six, v1: Six := Sextet(s[0]), Sextet(s[1]);
    if s[2] == PAD {
      SextetRoundTrip(v0, v1, 0, 0);
      assert Decode(s) == Ok([FirstByte(v0, v1)]);
      LetterInjective(Six1(FirstByte(v0, v1), 0), v1);
    } else {
      var v2: Six := Sextet(s[2]);
      SextetRoundTrip(v0, v1, v2, 0);
      assert Decode(s) == Ok([FirstByte(v0, v1), SecondByte(v1, v2)]);
      LetterInjective(Six2(SecondByte(v1, v2), 0), v2);
    }
  }

  /** A first group without padding is encoded as it was, whatever follows. */
  lemma EncodeOfUnpadded(s: string)
    requires |s| >= 4 && |s| % 4 == 0 && Decode(s[4..]).Ok? && forall i :: 0 <= i < 4 ==> IsBase64Char(s[i])
    ensures Decode(s).Ok? && Encode(Decode(s).bytes) == s[..4] + Encode(Decode(s[4..]).bytes)
  {
    hide Letter, FirstByte, SecondByte, ThirdByte, Six0, Six1, Six2, Six3, Sextet, DecodeGroups;
    var v0: Six, v1: Six, v2: Six, v3: Six := Sextet(s[0]), Sextet(s[1]), Sextet(s[2]), Sextet(s[3]);
    var group, t := [Letter(v0), Letter(v1), Letter(v2), Letter(v3)], s[4..];
    assert s == group + t && group == s[..4];
    DecodeUnpaddedGroup(v0, v1, v2, v3, t);
    SextetRoundTrip(v0, v1, v2, v3);
    EncodeUnpaddedGroup(FirstByte(v0, v1), SecondByte(v1, v2), ThirdByte(v2, v3), DecodeGroups(t).bytes);
  }

  /** Encoding undoes decoding exactly on the canonical texts. */
  lemma {:induction false} EncodeOfDecode(s: string)
    requires WellFormed(s)
    ensures Decode(s).Ok?
    ensures Encode(Decode(s).bytes) == s <==> Canonical(s)
  {
    hide Sextet, Decode, Encode;
    DecodeAccepts(s);
    if |s| == 4 && PAD in s {
      EncodeOfDecodePadded(s);
    } else if |s| == 0 {
      EncodeOfNothing();
    } else {
      if |s| > 4 { WellFormedRest(s); }
      forall i | 0 <= i < 4 ensures IsBase64Char(s[i]) { assert s[i] in s && WellFormedAt(s, i); }
      var t := s[4..];
      DecodeAccepts(t);
      EncodeOfDecode(t);
      EncodeOfUnpadded(s);
      assert s == s[..4] + t;
      assert Canonical(s) <==> Canonical(t);
    }
  }

  lemma EncodeOfNothing()
    ensures Decode("") == Ok([]) && Encode([]) == ""
  {}

  lemma FirstLetter()
    ensures Letter(0) == 'A' && Sextet('A') == 0 && IsBase64Char('A') && 'A' != PAD
  {
    SextetOfLetter(0);
  }

  /** A text that is decoded although no encoding gives it: padding in front of a letter. */
  lemma UncanonicalText()
    ensures WellFormed("AA=A") && !Canonical("AA=A") && Decode("AA=A") == Ok([0]) && Encode([0]) == "AA=="
  {
    hide Letter, Sextet, FromValues, IsBase64Char;
    FirstLetter();
    var s := "AA=A";
    assert s[0] == s[1] == s[3] == 'A' && s[2] == PAD;
    assert DecodeGroups(s) == FromValues(0, 0, PAD_SEXTET, 0, DecodeGroups(s[4..]));
    assert FromValues(0, 0, PAD_SEXTET, 0, DecodeGroups(s[4..])) == Ok([0]) by { PaddedZeros(DecodeGroups(s[4..])); }
  }

  lemma PaddedZeros(rest: Result)
    ensures FromValues(0, 0, PAD_SEXTET, 0, rest) == Ok([0])
  {}

  lemma EncodeUnpaddedGroup(a: Byte, b: Byte, c: Byte, rest: seq<Byte>)
    ensures Encode([a, b, c] + rest) == EncodeTriple(a, b, c) + Encode(rest)
  {
    assert ([a, b, c] + rest)[3..] == rest;
  }
}
