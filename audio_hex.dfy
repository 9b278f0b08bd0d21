/** The byte-building half of `convertResponseAudio` in components/Input.tsx: the
    speech service answers with a hex string, which is cut into two-character groups
    by `match(/.{1,2}/g)` and each group is read by `parseInt(group, 16)` into a
    `Uint8Array`. The decoder is base 16 in the sense of section 8 of RFC 4648, but
    lenient: either letter case, a lone trailing character is kept, and nothing is
    ever rejected. */
module AudioHex {
  import opened JsBuiltins

  /** The concatenation of a sequence of strings. */
  function Flatten(gs: seq<string>): string {
    if gs == [] then [] else gs[0] + Flatten(gs[1..])
  }

  /** `s` with every line terminator removed: what `/./` can ever match. */
  function WithoutLineTerminators(s: string): string {
    if s == [] then []
    else if IsLineTerminator(s[0]) then WithoutLineTerminators(s[1..])
    else [s[0]] + WithoutLineTerminators(s[1..])
  }

  predicate Unbroken(s: string) {
    forall i :: 0 <= i < |s| ==> !IsLineTerminator(s[i])
  }

  /** The matches of the global regular expression `/.{1,2}/g` on `s`, or the empty
      sequence where `match` would return null. A line terminator matches no `.`, so
      it is skipped and splits the run it stands in; every other run is cut into
      pairs from its left, with a lone last character when the run is odd. */
  function Groups(s: string): (gs: seq<string>)
    ensures |gs| <= |s|
    ensures forall i :: 0 <= i < |gs| ==> 1 <= |gs[i]| <= 2
    decreases |s|
  {
    if s == [] then []
    else if IsLineTerminator(s[0]) then Groups(s[1..])
    else if |s| >= 2 && !IsLineTerminator(s[1]) then [s[..2]] + Groups(s[2..])
    else [s[..1]] + Groups(s[1..])
  }

  lemma FlattenCons(g: string, rest: seq<string>)
    ensures Flatten([g] + rest) == g + Flatten(rest)
  {
    assert ([g] + rest)[1..] == rest;
  }

  lemma WithoutLineTerminatorsPair(s: string)
    requires |s| >= 2 && !IsLineTerminator(s[0]) && !IsLineTerminator(s[1])
    ensures WithoutLineTerminators(s) == s[..2] + WithoutLineTerminators(s[2..])
  {
    assert s[1..][1..] == s[2..];
    assert s[..2] == [s[0]] + [s[1]];
  }

  /** Together the groups spell out exactly the input less its line terminators. */
  lemma {:induction false} GroupsCoverInput(s: string)
    ensures Flatten(Groups(s)) == WithoutLineTerminators(s)
    decreases |s|
  {
    if s == [] {
    } else if IsLineTerminator(s[0]) {
      GroupsCoverInput(s[1..]);
    } else if |s| >= 2 && !IsLineTerminator(s[1]) {
      GroupsCoverInput(s[2..]);
      FlattenCons(s[..2], Groups(s[2..]));
      WithoutLineTerminatorsPair(s);
    } else {
      GroupsCoverInput(s[1..]);
      FlattenCons(s[..1], Groups(s[1..]));
    }
  }

  /** No group holds a line terminator. */
  lemma {:induction false} GroupsAreUnbroken(s: string)
    ensures forall i :: 0 <= i < |Groups(s)| ==> Unbroken(Groups(s)[i])
    decreases |s|
  {
    if s == [] {
    } else if IsLineTerminator(s[0]) {
      GroupsAreUnbroken(s[1..]);
    } else {
      var n := if |s| >= 2 && !IsLineTerminator(s[1]) then 2 else 1;
      var g, rest := s[..n], Groups(s[n..]);
      GroupsAreUnbroken(s[n..]);
      assert Groups(s) == [g] + rest;
      assert Unbroken(g);
      forall i | 1 <= i < |Groups(s)|
        ensures Unbroken(Groups(s)[i])
      {
        assert Groups(s)[i] == rest[i - 1];
      }
    }
  }

  /** The bytes of the `Uint8Array` that `convertResponseAudio` builds from `hex`.
      Total: every string decodes, and every element is a `uint8`. */
  function DecodeHex(hex: string): (bytes: seq<uint8>)
    ensures |bytes| == |Groups(hex)| <= |hex|
    ensures hex == [] ==> bytes == []
  {
    var gs := Groups(hex);
    seq(|gs|, i requires 0 <= i < |gs| => ToUint8(ParseInt16(gs[i])))
  }

  /** How one group of one or two characters decodes, spelled out case by case as an
      independent reference for `parseInt` followed by the `Uint8Array` store: a
      leading digit (then a second one if present), else white space or '+' before
      a digit, else '-' before a digit (which wraps modulo 256), else 0. */
  function GroupByte(g: string): (b: uint8)
    requires 1 <= |g| <= 2
  {
    if IsHexDigit(g[0]) then
      if |g| == 2 && IsHexDigit(g[1]) then (16 * DigitValue(g[0]) + DigitValue(g[1])) as uint8
      else DigitValue(g[0]) as uint8
    else if |g| == 2 && (IsTrimmable(g[0]) || g[0] == '+') && IsHexDigit(g[1]) then
      DigitValue(g[1]) as uint8
    else if |g| == 2 && g[0] == '-' && IsHexDigit(g[1]) then
      ((256 - DigitValue(g[1])) % 256) as uint8
    else 0
  }

  lemma TrimStartKeeps(s: string)
    requires s != [] && !IsTrimmable(s[0])
    ensures TrimStart(s) == s
  {
  }

  lemma ParseDigit(c: char)
    requires IsHexDigit(c)
    ensures ParseInt16([c]) == Int(DigitValue(c))
  {
    TrimStartKeeps([c]);
    assert [c][1..] == [];
    assert LeadingHexDigits([c]) == [c];
  }

  lemma ParseDigitPair(a: char, b: char)
    requires IsHexDigit(a)
    ensures IsHexDigit(b) ==> ParseInt16([a, b]) == Int(16 * DigitValue(a) + DigitValue(b))
    ensures a == '0' && (b == 'x' || b == 'X') ==> ParseInt16([a, b]).NaN?
    ensures !IsHexDigit(b) && !(a == '0' && (b == 'x' || b == 'X')) ==> ParseInt16([a, b]) == Int(DigitValue(a))
  {
    TrimStartKeeps([a, b]);
    assert [a, b][1..] == [b];
    assert [b][1..] == [];
    if IsHexDigit(b) {
      assert LeadingHexDigits([a, b]) == [a, b];
    } else if a == '0' && (b == 'x' || b == 'X') {
      assert [a, b][2..] == [];
    } else {
      assert LeadingHexDigits([a, b]) == [a];
    }
  }

  lemma ParseSigned(a: char, b: char)
    requires a == '-' || a == '+'
    ensures IsHexDigit(b) && a == '-' ==> ParseInt16([a, b]) == Int(-(DigitValue(b) as int))
    ensures IsHexDigit(b) && a == '+' ==> ParseInt16([a, b]) == Int(DigitValue(b))
    ensures !IsHexDigit(b) ==> ParseInt16([a, b]).NaN?
  {
    TrimStartKeeps([a, b]);
    assert [a, b][1..] == [b];
    assert [b][1..] == [];
    if IsHexDigit(b) {
      assert LeadingHexDigits([b]) == [b];
    }
  }

  lemma ParsePadded(a: char, b: char)
    requires IsTrimmable(a)
    ensures ParseInt16([a, b]) == ParseInt16([b])
  {
    assert [a, b][1..] == [b];
    assert TrimStart([a, b]) == TrimStart([b]);
  }

  lemma ParseOther(g: string)
    requires g != [] && !IsHexDigit(g[0]) && !IsTrimmable(g[0]) && g[0] != '-' && g[0] != '+'
    ensures ParseInt16(g).NaN?
  {
    TrimStartKeeps(g);
  }

  lemma ParseEmpty()
    ensures ParseInt16([]).NaN?
  {
    assert TrimStart([]) == [];
    assert LeadingHexDigits([]) == [];
  }

  lemma ParseLoneSpace(c: char)
    requires IsTrimmable(c)
    ensures ParseInt16([c]).NaN?
  {
    assert [c][1..] == [];
    assert TrimStart([c]) == TrimStart([]);
    ParseEmpty();
  }

  lemma ParseLoneSign(c: char)
    requires c == '-' || c == '+'
    ensures ParseInt16([c]).NaN?
  {
    TrimStartKeeps([c]);
    assert [c][1..] == [];
    assert LeadingHexDigits([]) == [];
  }

  lemma ParseLone(c: char)
    requires !IsHexDigit(c)
    ensures ParseInt16([c]).NaN?
  {
    if IsTrimmable(c) {
      ParseLoneSpace(c);
    } else if c == '-' || c == '+' {
      ParseLoneSign(c);
    } else {
      ParseOther([c]);
    }
  }

  /** Reading a group with `parseInt` and storing it in a `Uint8Array` is `GroupByte`. */
  lemma GroupByteIsParse(g: string)
    requires 1 <= |g| <= 2
    ensures ToUint8(ParseInt16(g)) == GroupByte(g)
  {
    if |g| == 1 {
      assert g == [g[0]];
      if IsHexDigit(g[0]) { ParseDigit(g[0]); } else { ParseLone(g[0]); }
    } else {
      var a, b := g[0], g[1];
      assert g == [a, b];
      if IsHexDigit(a) {
        ParseDigitPair(a, b);
      } else if IsTrimmable(a) {
        ParsePadded(a, b);
        if IsHexDigit(b) { ParseDigit(b); } else { ParseLone(b); }
      } else if a == '-' || a == '+' {
        ParseSigned(a, b);
      } else {
        ParseOther(g);
      }
    }
  }

  /** Each decoded byte is the group at the same position, read by `GroupByte`. */
  lemma DecodeHexAt(hex: string, i: nat)
    requires i < |Groups(hex)|
    ensures DecodeHex(hex)[i] == GroupByte(Groups(hex)[i])
  {
    GroupByteIsParse(Groups(hex)[i]);
  }

  /** On a string without line terminators the groups are consecutive pairs taken
      from the left, with a lone last character when the length is odd. */
  lemma {:induction false} GroupsOfUnbroken(s: string)
    requires Unbroken(s)
    ensures |Groups(s)| == (|s| + 1) / 2
    ensures forall i :: 0 <= i < |s| / 2 ==> Groups(s)[i] == s[2 * i..2 * i + 2]
    ensures |s| % 2 == 1 ==> Groups(s)[|s| / 2] == [s[|s| - 1]]
  {
    if |s| == 1 {
    } else if |s| >= 2 {
      var rest := s[2..];
      GroupsOfUnbroken(rest);
      assert Groups(s) == [s[..2]] + Groups(rest);
      forall i | 0 <= i < |s| / 2
        ensures Groups(s)[i] == s[2 * i..2 * i + 2]
      {
        if i > 0 {
          assert Groups(s)[i] == Groups(rest)[i - 1];
          assert rest[2 * (i - 1)..2 * (i - 1) + 2] == s[2 * i..2 * i + 2];
        }
      }
    }
  }

  /** The output has ceil(|hex| / 2) bytes when `hex` holds no line terminator. */
  lemma DecodeHexLength(hex: string)
    requires Unbroken(hex)
    ensures |DecodeHex(hex)| == (|hex| + 1) / 2
  {
    GroupsOfUnbroken(hex);
  }

  predicate AllHexDigits(s: string) {
    forall i :: 0 <= i < |s| ==> IsHexDigit(s[i])
  }

  /** For a string of hex digits in either case, byte i is 16 * digit(2i) + digit(2i+1),
      and an odd length leaves the last digit alone as the last byte. */
  lemma DecodeHexDigits(hex: string)
    requires AllHexDigits(hex)
    ensures |DecodeHex(hex)| == (|hex| + 1) / 2
    ensures forall i :: 0 <= i < |hex| / 2 ==>
              DecodeHex(hex)[i] as int == 16 * DigitValue(hex[2 * i]) + DigitValue(hex[2 * i + 1])
    ensures |hex| % 2 == 1 ==> DecodeHex(hex)[|hex| / 2] as int == DigitValue(hex[|hex| - 1])
  {
    GroupsOfUnbroken(hex);
    forall i | 0 <= i < |hex| / 2
      ensures DecodeHex(hex)[i] as int == 16 * DigitValue(hex[2 * i]) + DigitValue(hex[2 * i + 1])
    {
      DecodeHexAt(hex, i);
      assert Groups(hex)[i] == [hex[2 * i], hex[2 * i + 1]];
    }
    if |hex| % 2 == 1 {
      DecodeHexAt(hex, |hex| / 2);
    }
  }

  /** A group that starts with neither a hex digit, white space nor a sign decodes
      to 0: `parseInt` gives NaN and the array stores 0. */
  lemma NonNumericGroupIsZero(hex: string, i: nat)
    requires i < |Groups(hex)|
    requires var c := Groups(hex)[i][0]; !IsHexDigit(c) && !IsTrimmable(c) && c != '+' && c != '-'
    ensures DecodeHex(hex)[i] == 0
  {
    DecodeHexAt(hex, i);
  }

  /** More generally, a group in which no hex digit follows the optional leading
      white space and one sign decodes to 0: a group of two characters can only
      reach a digit at its second place through one such lead character. */
  lemma NoLeadingDigitIsZero(hex: string, i: nat)
    requires i < |Groups(hex)|
    requires var g := Groups(hex)[i];
      && !IsHexDigit(g[0])
      && !(|g| == 2 && (IsTrimmable(g[0]) || g[0] == '+' || g[0] == '-') && IsHexDigit(g[1]))
    ensures DecodeHex(hex)[i] == 0
  {
    DecodeHexAt(hex, i);
  }

  /** The lowercase base-16 digit of a value below 16. */
  function LowerHexDigit(d: nat): (c: char)
    requires d < 16
    ensures IsHexDigit(c) && DigitValue(c) == d
    ensures !('A' <= c <= 'F')
  {
    if d < 10 then ('0' as int + d) as char else ('a' as int + d - 10) as char
  }

  /** The lowercase hex encoding of a byte sequence, two digits per byte: the form
      the speech service sends. */
  function EncodeLowerHex(bytes: seq<uint8>): (s: string)
    ensures |s| == 2 * |bytes|
    ensures forall i :: 0 <= i < |bytes| ==>
              s[2 * i] == LowerHexDigit(bytes[i] as int / 16) && s[2 * i + 1] == LowerHexDigit(bytes[i] as int % 16)
  {
    if bytes == [] then []
    else
      var head := [LowerHexDigit(bytes[0] as int / 16), LowerHexDigit(bytes[0] as int % 16)];
      var tail := EncodeLowerHex(bytes[1..]);
      assert forall i :: 1 <= i < |bytes| ==> bytes[i] == bytes[1..][i - 1];
      head + tail
  }

  lemma EncodeLowerHexDigits(bytes: seq<uint8>)
    ensures AllHexDigits(EncodeLowerHex(bytes))
  {
    var hex := EncodeLowerHex(bytes);
    forall j | 0 <= j < |hex|
      ensures IsHexDigit(hex[j])
    {
      var i := j / 2;
      if j % 2 == 0 {
        assert hex[2 * i] == LowerHexDigit(bytes[i] as int / 16);
      } else {
        assert hex[2 * i + 1] == LowerHexDigit(bytes[i] as int % 16);
      }
    }
  }

  /** Decoding the lowercase hex encoding of any byte sequence gives it back. */
  lemma DecodeEncodeLowerHex(bytes: seq<uint8>)
    ensures DecodeHex(EncodeLowerHex(bytes)) == bytes
  {
    var hex := EncodeLowerHex(bytes);
    EncodeLowerHexDigits(bytes);
    DecodeHexDigits(hex);
    var decoded := DecodeHex(hex);
    forall i | 0 <= i < |bytes|
      ensures decoded[i] == bytes[i]
    {
      var b := bytes[i] as int;
      assert DigitValue(hex[2 * i]) == b / 16 && DigitValue(hex[2 * i + 1]) == b % 16;
      assert decoded[i] as int == 16 * (b / 16) + b % 16;
    }
  }

  /** A hex digit folded to lower case. */
  function LowerHexChar(c: char): (l: char)
    requires IsHexDigit(c)
    ensures IsHexDigit(l) && DigitValue(l) == DigitValue(c)
    ensures !('A' <= l <= 'F')
  {
    if 'A' <= c <= 'F' then (c as int + 32) as char else c
  }

  lemma SplitByte(hi: nat, lo: nat)
    requires hi < 16 && lo < 16
    ensures (16 * hi + lo) / 16 == hi && (16 * hi + lo) % 16 == lo
  {
  }

  /** Re-encoding a digit's value gives the digit folded to lower case. */
  lemma DigitFold(c: char)
    requires IsHexDigit(c)
    ensures LowerHexDigit(DigitValue(c)) == LowerHexChar(c)
  {
  }

  /** `s` with its letters folded to lower case. */
  function LowerHex(s: string): string
    requires AllHexDigits(s)
  {
    seq(|s|, j requires 0 <= j < |s| => LowerHexChar(s[j]))
  }

  /** The byte that two digits denote re-encodes as those digits in lower case. */
  lemma ByteOfDigits(a: char, b: char, x: uint8)
    requires IsHexDigit(a) && IsHexDigit(b)
    requires x as int == 16 * DigitValue(a) + DigitValue(b)
    ensures LowerHexDigit(x as int / 16) == LowerHexChar(a)
    ensures LowerHexDigit(x as int % 16) == LowerHexChar(b)
  {
    SplitByte(DigitValue(a), DigitValue(b));
    DigitFold(a);
    DigitFold(b);
  }

  /** Bytes that are read pairwise off a string of hex digits encode back to it,
      folded to lower case. */
  lemma EncodeOfPairs(hex: string, bytes: seq<uint8>)
    requires AllHexDigits(hex) && |hex| == 2 * |bytes|
    requires forall i :: 0 <= i < |bytes| ==>
               bytes[i] as int == 16 * DigitValue(hex[2 * i]) + DigitValue(hex[2 * i + 1])
    ensures EncodeLowerHex(bytes) == LowerHex(hex)
  {
    var enc, lower := EncodeLowerHex(bytes), LowerHex(hex);
    forall i | 0 <= i < |bytes|
      ensures enc[2 * i] == lower[2 * i] && enc[2 * i + 1] == lower[2 * i + 1]
    {
      ByteOfDigits(hex[2 * i], hex[2 * i + 1], bytes[i]);
    }
    forall j | 0 <= j < |hex|
      ensures enc[j] == lower[j]
    {
      var i := j / 2;
      assert j == 2 * i || j == 2 * i + 1;
    }
  }

  /** Encoding what an even-length string of hex digits decodes to gives the string
      back, folded to lower case: the decoder loses only the letter case. */
  lemma EncodeDecodeHex(hex: string)
    requires AllHexDigits(hex) && |hex| % 2 == 0
    ensures EncodeLowerHex(DecodeHex(hex)) == LowerHex(hex)
  {
    DecodeHexDigits(hex);
    var n := |hex| / 2;
    assert |hex| == 2 * n && (|hex| + 1) / 2 == n;
    EncodeOfPairs(hex, DecodeHex(hex));
  }

  lemma ExampleEmpty()
    ensures DecodeHex("") == []
  {
  }

  lemma ExampleOk()
    ensures DecodeHex("4f4b") == [0x4F, 0x4B]
  {
    DecodeHexDigits("4f4b");
    assert DigitValue('4') == 4 && DigitValue('f') == 15 && DigitValue('b') == 11;
  }

  lemma ExampleMixedCase()
    ensures DecodeHex("4F4b") == [0x4F, 0x4B]
  {
    DecodeHexDigits("4F4b");
    assert DigitValue('4') == 4 && DigitValue('F') == 15 && DigitValue('b') == 11;
  }

  lemma ExampleLeadingZero()
    ensures DecodeHex("0aff") == [0x0A, 0xFF]
  {
    DecodeHexDigits("0aff");
    assert DigitValue('0') == 0 && DigitValue('a') == 10 && DigitValue('f') == 15;
  }

  lemma ExampleOdd()
    ensures DecodeHex("abc") == [0xAB, 0x0C]
  {
    var s := "abc";
    assert AllHexDigits(s);
    DecodeHexDigits(s);
    var d := DecodeHex(s);
    assert d[0] as int == 16 * DigitValue(s[0]) + DigitValue(s[1]) == 0xAB;
    assert d[1] as int == DigitValue(s[2]) == 0x0C;
  }
}
