/**
 * The base64 codec of section 4 of RFC 4648, as the pipeline's library decoder
 * (`base64.b64decode(..., validate=True)`) applies it, together with a reference
 * encoder against which its round trip is proved.
 *
 * The decoder follows CPython up to 3.10: the input must fully match
 * `[A-Za-z0-9+/]*={0,2}` ("Non-base64 digit found" otherwise); the data characters
 * are then decoded four at a time, a final group of two or three characters must be
 * completed by enough `=` ("Incorrect padding"), a final group of one character is
 * always an error, and the unused low bits of the last character of a short group
 * are discarded. From 3.11 the library calls `binascii.a2b_base64` in strict mode
 * instead; the two readings differ only on text whose length is not a multiple of
 * four (`QQQQ=` is accepted here and rejected as excess padding there), and
 * `decode_base64` pads its input to such a length before decoding.
 */
module Base64 {
  import opened Wrappers
  import opened Bytes

  /** The 64 characters of the base64 alphabet (Table 1 of RFC 4648). */
  predicate IsAlphabet(c: char)
  {
    'A' <= c <= 'Z' || 'a' <= c <= 'z' || '0' <= c <= '9' || c == '+' || c == '/'
  }

  const Pad: char := '='

  /** The 6-bit value a base64 character stands for. */
  function CharSextet(c: char): (v: int)
    requires IsAlphabet(c)
    ensures 0 <= v < 64
  {
    if 'A' <= c <= 'Z' then c as int - 'A' as int
    else if 'a' <= c <= 'z' then c as int - 'a' as int + 26
    else if '0' <= c <= '9' then c as int - '0' as int + 52
    else if c == '+' then 62
    else 63
  }

  /** The base64 character for a 6-bit value; inverse of CharSextet. */
  function SextetChar(v: int): (c: char)
    requires 0 <= v < 64
    ensures IsAlphabet(c) && CharSextet(c) == v
  {
    if v < 26 then ('A' as int + v) as char
    else if v < 52 then ('a' as int + v - 26) as char
    else if v < 62 then ('0' as int + v - 52) as char
    else if v == 62 then '+'
    else '/'
  }

  predicate AllAlphabet(s: string)
  {
    forall i :: 0 <= i < |s| ==> IsAlphabet(s[i])
  }

  predicate AllPad(s: string)
  {
    forall i :: 0 <= i < |s| ==> s[i] == Pad
  }

  // ---------------------------------------------------------------------------
  // Reference encoder (section 4 of RFC 4648)
  // ---------------------------------------------------------------------------

  /** Values that fit in six bits. */
  predicate AreSextets(v: seq<int>)
  {
    forall i :: 0 <= i < |v| ==> 0 <= v[i] < 64
  }

  /**
   * One group of one to three octets cut into sextets: its bits, zero filled to a
   * multiple of six, make two to four values.
   */
  function GroupSextets(g: seq<Byte>): (v: seq<int>)
    requires 1 <= |g| <= 3
    ensures |v| == |g| + 1 && AreSextets(v)
  {
    if |g| == 1 then
      [g[0] / 4, g[0] % 4 * 16]
    else if |g| == 2 then
      [g[0] / 4, g[0] % 4 * 16 + g[1] / 16, g[1] % 16 * 4]
    else
      [g[0] / 4, g[0] % 4 * 16 + g[1] / 16, g[1] % 16 * 4 + g[2] / 64, g[2] % 64]
  }

  /** Each sextet written as its alphabet character. */
  function Chars(v: seq<int>): (s: string)
    requires AreSextets(v)
    ensures |s| == |v| && AllAlphabet(s)
  {
    seq(|v|, i requires 0 <= i < |v| => SextetChar(v[i]))
  }

  /** One group of one to three octets as two to four characters. */
  function EncodeGroup(g: seq<Byte>): (s: string)
    requires 1 <= |g| <= 3
    ensures |s| == |g| + 1 && AllAlphabet(s)
  {
    Chars(GroupSextets(g))
  }

  /**
   * The encoded characters of `b` without the final `=` padding: every 24-bit group
   * becomes four characters; a final group of one or two octets becomes two or three
   * characters whose unused low bits are zero.
   */
  function EncodeGroups(b: seq<Byte>): (s: string)
    ensures AllAlphabet(s)
    ensures |s| == |b| / 3 * 4 + (if |b| % 3 == 0 then 0 else |b| % 3 + 1)
  {
    if |b| == 0 then ""
    else if |b| <= 3 then EncodeGroup(b)
    else EncodeGroup(b[..3]) + EncodeGroups(b[3..])
  }

  /** The `=` characters that complete the last quantum of an encoding of `n` octets. */
  function PaddingFor(n: nat): (p: string)
    ensures AllPad(p) && |p| <= 2
    ensures (n + |p|) % 3 == 0 || |p| == 0
  {
    if n % 3 == 1 then "==" else if n % 3 == 2 then "=" else ""
  }

  /** The padded base64 encoding of `b`. */
  function Encode(b: seq<Byte>): (s: string)
    ensures |s| % 4 == 0 && |s| == (|b| + 2) / 3 * 4
  {
    PaddedLength(|b|, |EncodeGroups(b)|, |PaddingFor(|b|)|);
    EncodeGroups(b) + PaddingFor(|b|)
  }

  /** Padding completes the last quantum: `n` octets take `4 * ceil(n / 3)` characters. */
  lemma PaddedLength(n: nat, m: int, p: int)
    requires m == n / 3 * 4 + (if n % 3 == 0 then 0 else n % 3 + 1)
    requires p == (if n % 3 == 1 then 2 else if n % 3 == 2 then 1 else 0)
    ensures (m + p) % 4 == 0 && m + p == (n + 2) / 3 * 4
  {
    var q, r := n / 3, n % 3;
    assert n == 3 * q + r;
    assert (n + 2) / 3 == q + (if r == 0 then 0 else 1);
  }

  // ---------------------------------------------------------------------------
  // Library decoder
  // ---------------------------------------------------------------------------

  /** Length of the longest prefix of `t` made of alphabet characters. */
  function DataLength(t: string): (n: nat)
    ensures n <= |t|
    ensures AllAlphabet(t[..n])
    ensures n < |t| ==> !IsAlphabet(t[n])
  {
    if |t| == 0 || !IsAlphabet(t[0]) then 0
    else
      assert t[1..][..DataLength(t[1..])] == t[1..1 + DataLength(t[1..])];
      1 + DataLength(t[1..])
  }

  /** The sextet each alphabet character stands for. */
  function Values(s: string): (v: seq<int>)
    requires AllAlphabet(s)
    ensures |v| == |s| && AreSextets(v)
  {
    seq(|s|, i requires 0 <= i < |s| => CharSextet(s[i]))
  }

  /**
   * The octets spelled by two to four sextets, read as one bit string. The bits of
   * the last sextet that do not fill a whole octet are dropped, whatever their value.
   */
  function GroupOctets(v: seq<int>): (b: seq<Byte>)
    requires 2 <= |v| <= 4 && AreSextets(v)
    ensures |b| == |v| - 1
  {
    if |v| == 2 then
      [v[0] * 4 + v[1] / 16]
    else if |v| == 3 then
      [v[0] * 4 + v[1] / 16, v[1] % 16 * 16 + v[2] / 4]
    else
      [v[0] * 4 + v[1] / 16, v[1] % 16 * 16 + v[2] / 4, v[2] % 4 * 64 + v[3]]
  }

  /** One group of two to four data characters: the octets their sextets spell. */
  function DecodeGroup(g: string): (b: seq<Byte>)
    requires 2 <= |g| <= 4 && AllAlphabet(g)
    ensures |b| == |g| - 1
  {
    GroupOctets(Values(g))
  }

  /**
   * The octets encoded by the data characters `d`: three per group of four, then one
   * or two for a final group of two or three characters.
   */
  function DecodeSextets(d: string): (b: seq<Byte>)
    requires AllAlphabet(d) && |d| % 4 != 1
    ensures |b| == |d| / 4 * 3 + (if |d| % 4 == 0 then 0 else |d| % 4 - 1)
  {
    if |d| == 0 then []
    else if |d| <= 4 then DecodeGroup(d)
    else DecodeGroup(d[..4]) + DecodeSextets(d[4..])
  }

  /**
   * The last sextet of a group of `r` characters with the low bits the decoder drops
   * cleared: four bits after two characters, two after three, none after four.
   */
  function ClearLow(v: int, r: int): (w: int)
    requires 0 <= v < 64
    ensures 0 <= w < 64
  {
    if r == 2 then v / 16 * 16 else if r == 3 then v / 4 * 4 else v
  }

  /**
   * The canonical spelling of the data characters `d`: the same text, except that
   * the last character of a short final group has its unused low bits cleared.
   */
  function Canon(d: string): (c: string)
    requires AllAlphabet(d) && |d| % 4 != 1
    ensures |c| == |d| && AllAlphabet(c)
    ensures |d| > 0 ==> c == d[..|d| - 1] + [SextetChar(ClearLow(CharSextet(d[|d| - 1]), |d| % 4))]
  {
    if |d| == 0 then d
    else
      var k := |d| - 1;
      var c := d[..k] + [SextetChar(ClearLow(CharSextet(d[k]), |d| % 4))];
      assert AllAlphabet(c) by {
        assert forall i :: 0 <= i < k ==> c[i] == d[i];
      }
      if |d| % 4 == 0 then
        CharSextetRoundTrip(d[k]);
        assert d == d[..k] + [d[k]];
        d
      else c
  }

  /**
   * `base64.b64decode(t, validate=True)` as CPython up to 3.10 reads it: None
   * stands for the `binascii.Error` the library raises.
   */
  function B64DecodeValidate(t: string): (r: Option<seq<Byte>>)
    ensures r.Some? ==> MatchesValidatePattern(t)
    ensures |t| % 4 == 0 ==> (r.Some? <==> MatchesValidatePattern(t))
  {
    PatternIffSplit(t);
    PaddedSplitArithmetic(|t|, DataLength(t));
    var n := DataLength(t);
    var pads := |t| - n;
    if !AllPad(t[n..]) || pads > 2 then None            // Non-base64 digit found
    else if n % 4 == 1 then None                         // one character past a group
    else if n % 4 != 0 && n % 4 + pads < 4 then None     // Incorrect padding
    else Some(DecodeSextets(t[..n]))
  }

  /**
   * The regular expression `[A-Za-z0-9+/]*={0,2}` of the validating decoder, stated
   * position by position: every character is in the alphabet, except a run of at
   * most two `=` that ends the string.
   */
  predicate MatchesValidatePattern(t: string)
  {
    forall i :: 0 <= i < |t| ==>
      IsAlphabet(t[i]) || (t[i] == Pad && |t| - i <= 2 && AllPad(t[i..]))
  }

  // ---------------------------------------------------------------------------
  // Lemmas
  // ---------------------------------------------------------------------------

  /** A string of data characters followed by something that does not start with one. */
  lemma {:induction false} DataLengthOfSplit(d: string, rest: string)
    requires AllAlphabet(d)
    requires |rest| == 0 || !IsAlphabet(rest[0])
    ensures DataLength(d + rest) == |d|
  {
    if |d| > 0 {
      assert (d + rest)[1..] == d[1..] + rest;
      DataLengthOfSplit(d[1..], rest);
    }
  }

  /** Reading the characters of sextets gives back the sextets. */
  lemma ValuesOfChars(v: seq<int>)
    requires AreSextets(v)
    ensures Values(Chars(v)) == v
  {
    var s := Chars(v);
    forall i | 0 <= i < |v| ensures Values(s)[i] == v[i] {
      assert s[i] == SextetChar(v[i]);
    }
  }

  /** A final group of one octet: two sextets, the second carrying four zero bits. */
  lemma OneOctetRoundTrip(x: Byte)
    ensures GroupOctets(GroupSextets([x])) == [x]
  {
    var a, b := x / 4, x % 4 * 16;
    assert GroupSextets([x]) == [a, b];
    assert a * 4 + b / 16 == x;
  }

  /** A final group of two octets: three sextets, the third carrying two zero bits. */
  lemma TwoOctetsRoundTrip(x: Byte, y: Byte)
    ensures GroupOctets(GroupSextets([x, y])) == [x, y]
  {
    var a, b, c := x / 4, x % 4 * 16 + y / 16, y % 16 * 4;
    assert GroupSextets([x, y]) == [a, b, c];
    assert a * 4 + b / 16 == x;
    assert b % 16 * 16 + c / 4 == y;
  }

  /** A full group of three octets: four sextets holding exactly their 24 bits. */
  lemma ThreeOctetsRoundTrip(x: Byte, y: Byte, z: Byte)
    ensures GroupOctets(GroupSextets([x, y, z])) == [x, y, z]
  {
    var a, b, c, d := x / 4, x % 4 * 16 + y / 16, y % 16 * 4 + z / 64, z % 64;
    assert GroupSextets([x, y, z]) == [a, b, c, d];
    assert a * 4 + b / 16 == x;
    assert b % 16 * 16 + c / 4 == y;
    assert c % 4 * 64 + d == z;
  }

  /** Decoding the encoding of one group of one to three octets gives them back. */
  lemma GroupRoundTrip(g: seq<Byte>)
    requires 1 <= |g| <= 3
    ensures DecodeGroup(EncodeGroup(g)) == g
  {
    ValuesOfChars(GroupSextets(g));
    if |g| == 1 {
      assert g == [g[0]];
      OneOctetRoundTrip(g[0]);
    } else if |g| == 2 {
      assert g == [g[0], g[1]];
      TwoOctetsRoundTrip(g[0], g[1]);
    } else {
      assert g == [g[0], g[1], g[2]];
      ThreeOctetsRoundTrip(g[0], g[1], g[2]);
    }
  }

  /** Decoding proceeds one group of four characters at a time. */
  lemma DecodeSextetsSplit(q: string, rest: string)
    requires |q| == 4 && AllAlphabet(q) && AllAlphabet(rest) && |rest| % 4 != 1
    ensures AllAlphabet(q + rest) && |q + rest| % 4 != 1
    ensures DecodeSextets(q + rest) == DecodeGroup(q) + DecodeSextets(rest)
  {
    var s := q + rest;
    assert AllAlphabet(s) by {
      forall i | 0 <= i < |s| ensures IsAlphabet(s[i]) {
        if i < 4 {
          assert s[i] == q[i];
        } else {
          assert s[i] == rest[i - 4];
        }
      }
    }
    assert s[..4] == q && s[4..] == rest;
  }

  /** The unpadded encoding never ends one character past a full group. */
  lemma EncodedLength(b: seq<Byte>)
    ensures |EncodeGroups(b)| % 4 == (if |b| % 3 == 0 then 0 else |b| % 3 + 1)
  {
    GroupCountArithmetic(|b|, |EncodeGroups(b)|);
  }

  lemma GroupCountArithmetic(n: nat, m: int)
    requires m == n / 3 * 4 + (if n % 3 == 0 then 0 else n % 3 + 1)
    ensures m % 4 == (if n % 3 == 0 then 0 else n % 3 + 1)
  {
  }

  /** One full group in front of an encoding that already decodes correctly. */
  lemma FullGroupStep(b: seq<Byte>)
    requires |b| > 3
    requires |EncodeGroups(b[3..])| % 4 != 1
    requires DecodeSextets(EncodeGroups(b[3..])) == b[3..]
    ensures |EncodeGroups(b)| % 4 != 1
    ensures DecodeSextets(EncodeGroups(b)) == b
  {
    var head, tail := EncodeGroup(b[..3]), EncodeGroups(b[3..]);
    assert EncodeGroups(b) == head + tail;
    DecodeSextetsSplit(head, tail);
    GroupRoundTrip(b[..3]);
    assert b == b[..3] + b[3..];
  }

  /** Decoding the data characters of an encoding gives back the octets. */
  lemma {:induction false} DecodeEncodeGroups(b: seq<Byte>)
    ensures |EncodeGroups(b)| % 4 != 1
    ensures DecodeSextets(EncodeGroups(b)) == b
  {
    if 1 <= |b| <= 3 {
      GroupRoundTrip(b);
    } else if |b| > 3 {
      DecodeEncodeGroups(b[3..]);
      FullGroupStep(b);
    }
  }

  /** Round trip of the library codec: `b64decode(encode(b), validate=True) == b`. */
  lemma {:induction false} DecodeEncode(b: seq<Byte>)
    ensures B64DecodeValidate(Encode(b)) == Some(b)
  {
    var d, p := EncodeGroups(b), PaddingFor(|b|);
    var t := Encode(b);
    DataLengthOfSplit(d, p);
    assert t[..|d|] == d && t[|d|..] == p;
    DecodeEncodeGroups(b);
  }

  /**
   * A string matches the validating pattern exactly when it splits into data
   * characters followed by at most two `=`.
   */
  lemma PatternIffSplit(t: string)
    ensures MatchesValidatePattern(t) <==> AllPad(t[DataLength(t)..]) && |t| - DataLength(t) <= 2
  {
    if MatchesValidatePattern(t) {
      PatternSplit(t);
    }
    if AllPad(t[DataLength(t)..]) && |t| - DataLength(t) <= 2 {
      SplitMatchesPattern(t);
    }
  }

  /** Text matching the pattern is its data part followed by at most two `=`. */
  lemma PatternSplit(t: string)
    requires MatchesValidatePattern(t)
    ensures AllPad(t[DataLength(t)..]) && |t| - DataLength(t) <= 2
  {
    var n := DataLength(t);
    if n < |t| {
      assert !IsAlphabet(t[n]);
      assert t[n..][0] == t[n];
    }
  }

  /** Data characters followed by at most two `=` match the pattern. */
  lemma SplitMatchesPattern(t: string)
    requires AllPad(t[DataLength(t)..]) && |t| - DataLength(t) <= 2
    ensures MatchesValidatePattern(t)
  {
    var n := DataLength(t);
    forall i | 0 <= i < |t|
      ensures IsAlphabet(t[i]) || (t[i] == Pad && |t| - i <= 2 && AllPad(t[i..]))
    {
      if i < n {
        DataPosition(t, n, i);
      } else {
        PadPosition(t, n, i);
      }
    }
  }

  /** A position in the data part holds an alphabet character. */
  lemma DataPosition(t: string, n: nat, i: nat)
    requires i < n <= |t| && AllAlphabet(t[..n])
    ensures IsAlphabet(t[i])
  {
    assert t[..n][i] == t[i];
  }

  /** A position in a trailing run of at most two `=` is in the run's last two places. */
  lemma PadPosition(t: string, n: nat, i: nat)
    requires n <= i < |t| && |t| - n <= 2 && AllPad(t[n..])
    ensures t[i] == Pad && |t| - i <= 2 && AllPad(t[i..])
  {
    var p := t[n..];
    assert p[i - n] == t[i];
    assert t[i..] == p[i - n..];
    PadSuffix(p, i - n);
  }

  /** Every suffix of a run of `=` is one. */
  lemma PadSuffix(p: string, k: nat)
    requires AllPad(p) && k <= |p|
    ensures AllPad(p[k..])
  {
    forall j | 0 <= j < |p| - k ensures p[k..][j] == Pad {
      assert p[k..][j] == p[k + j];
    }
  }

  /**
   * In a string whose length is a multiple of four, a data part followed by at
   * most two `=` is never one character past a group and always padded enough.
   */
  lemma PaddedSplitArithmetic(len: int, n: int)
    ensures len % 4 == 0 && 0 <= n <= len && len - n <= 2 ==>
      n % 4 != 1 && (n % 4 == 0 || n % 4 + (len - n) >= 4)
  {
    if len % 4 == 0 && 0 <= n <= len && len - n <= 2 {
      assert n % 4 == if len == n then 0 else 4 - (len - n);
    }
  }

  /** Each alphabet character is the character of its own sextet. */
  lemma CharSextetRoundTrip(c: char)
    requires IsAlphabet(c)
    ensures SextetChar(CharSextet(c)) == c
  {
  }

  /** Writing out the sextets of alphabet text gives back the text. */
  lemma CharsOfValues(s: string)
    requires AllAlphabet(s)
    ensures Chars(Values(s)) == s
  {
    forall i | 0 <= i < |s| ensures Chars(Values(s))[i] == s[i] {
      CharSextetRoundTrip(s[i]);
    }
  }

  /** Two sextets decode to one octet, whose sextets keep only the top two bits of the second. */
  lemma TwoSextetsBack(a: int, b: int)
    requires 0 <= a < 64 && 0 <= b < 64
    ensures GroupSextets(GroupOctets([a, b])) == [a, ClearLow(b, 2)]
  {
    var x := a * 4 + b / 16;
    assert GroupOctets([a, b]) == [x];
    assert x / 4 == a && x % 4 == b / 16;
  }

  /** Three sextets decode to two octets, whose sextets keep only the top four bits of the third. */
  lemma ThreeSextetsBack(a: int, b: int, c: int)
    requires 0 <= a < 64 && 0 <= b < 64 && 0 <= c < 64
    ensures GroupSextets(GroupOctets([a, b, c])) == [a, b, ClearLow(c, 3)]
  {
    var x, y := a * 4 + b / 16, b % 16 * 16 + c / 4;
    assert GroupOctets([a, b, c]) == [x, y];
    assert x / 4 == a && x % 4 == b / 16;
    assert y / 16 == b % 16 && y % 16 == c / 4;
  }

  /** Four sextets decode to three octets whose sextets are the same four. */
  lemma FourSextetsBack(a: int, b: int, c: int, d: int)
    requires 0 <= a < 64 && 0 <= b < 64 && 0 <= c < 64 && 0 <= d < 64
    ensures GroupSextets(GroupOctets([a, b, c, d])) == [a, b, c, d]
  {
    var x, y, z := a * 4 + b / 16, b % 16 * 16 + c / 4, c % 4 * 64 + d;
    assert GroupOctets([a, b, c, d]) == [x, y, z];
    assert x / 4 == a && x % 4 == b / 16;
    assert y / 16 == b % 16 && y % 16 == c / 4;
    assert z / 64 == c % 4 && z % 64 == d;
  }

  /** Two to four sextets decoded and cut again: the same sextets, the last one cleared. */
  lemma SextetsBack(v: seq<int>)
    requires 2 <= |v| <= 4 && AreSextets(v)
    ensures GroupSextets(GroupOctets(v)) == v[..|v| - 1] + [ClearLow(v[|v| - 1], |v|)]
  {
    if |v| == 2 {
      assert v == [v[0], v[1]];
      TwoSextetsBack(v[0], v[1]);
    } else if |v| == 3 {
      assert v == [v[0], v[1], v[2]];
      ThreeSextetsBack(v[0], v[1], v[2]);
    } else {
      assert v == [v[0], v[1], v[2], v[3]];
      FourSextetsBack(v[0], v[1], v[2], v[3]);
    }
  }

  /** Writing out the sextets of a group with its last one cleared gives its canonical spelling. */
  lemma CharsOfCleared(g: string, w: seq<int>)
    requires 2 <= |g| <= 4 && AllAlphabet(g) && AreSextets(w) && |w| == |g|
    requires forall i :: 0 <= i < |g| - 1 ==> w[i] == CharSextet(g[i])
    requires w[|g| - 1] == ClearLow(CharSextet(g[|g| - 1]), |g|)
    ensures Chars(w) == Canon(g)
  {
    var c, e := Canon(g), Chars(w);
    forall i | 0 <= i < |g| ensures e[i] == c[i] {
      if i < |g| - 1 {
        CharSextetRoundTrip(g[i]);
      }
    }
  }

  /** Re-encoding the octets of one group of two to four characters gives its canonical spelling. */
  lemma GroupBack(g: string)
    requires 2 <= |g| <= 4 && AllAlphabet(g)
    ensures EncodeGroup(DecodeGroup(g)) == Canon(g)
  {
    var v := Values(g);
    var k := |g| - 1;
    var w := v[..k] + [ClearLow(v[k], |g|)];
    SextetsBack(v);
    CharsOfCleared(g, w);
  }

  /** Both parts of alphabet text are alphabet text. */
  lemma AlphabetParts(d: string, k: nat)
    requires AllAlphabet(d) && k <= |d|
    ensures AllAlphabet(d[..k]) && AllAlphabet(d[k..])
  {
    assert forall i :: 0 <= i < k ==> d[..k][i] == d[i];
    assert forall i :: 0 <= i < |d| - k ==> d[k..][i] == d[i + k];
  }

  /** Canonical spelling leaves a full leading group alone. */
  lemma CanonSplit(d: string)
    requires AllAlphabet(d) && |d| % 4 != 1 && |d| > 4
    ensures AllAlphabet(d[..4]) && AllAlphabet(d[4..])
    ensures Canon(d) == d[..4] + Canon(d[4..])
  {
    AlphabetParts(d, 4);
    if |d| % 4 == 0 {
      CanonOfFullGroups(d);
      CanonOfFullGroups(d[4..]);
      assert d == d[..4] + d[4..];
    } else {
      CanonSplitShort(d, d[4..]);
    }
  }

  /** Text made of full groups is already canonical. */
  lemma CanonOfFullGroups(d: string)
    requires AllAlphabet(d) && |d| % 4 == 0
    ensures Canon(d) == d
  {
  }

  /** The case of `CanonSplit` where the text ends in a short group. */
  lemma CanonSplitShort(d: string, r: string)
    requires AllAlphabet(d) && |d| % 4 > 1 && |d| > 4 && r == d[4..] && AllAlphabet(r)
    ensures Canon(d) == d[..4] + Canon(r)
  {
    var k := |d| - 1;
    var x := SextetChar(ClearLow(CharSextet(d[k]), |d| % 4));
    assert Canon(r) == r[..k - 4] + [x] by {
      assert r[k - 4] == d[k] && |r| % 4 == |d| % 4;
    }
    assert d[..k] == d[..4] + r[..k - 4];
  }

  /**
   * The converse round trip: re-encoding what the decoder returns for data characters
   * `d` gives `d` back, up to the unused low bits of a short final group.
   */
  lemma {:induction false} EncodeOfDecode(d: string)
    requires AllAlphabet(d) && |d| % 4 != 1
    ensures EncodeGroups(DecodeSextets(d)) == Canon(d)
  {
    if 2 <= |d| <= 4 {
      GroupBack(d);
    } else if |d| > 4 {
      CanonSplit(d);
      DecodeGroupStep(d);
      EncodeOfDecode(d[4..]);
      GroupBack(d[..4]);
    }
  }

  /** Re-encoding the decoding of text longer than one group goes one group at a time. */
  lemma DecodeGroupStep(d: string)
    requires AllAlphabet(d) && |d| % 4 != 1 && |d| > 4
    requires AllAlphabet(d[..4]) && AllAlphabet(d[4..])
    ensures EncodeGroups(DecodeSextets(d))
         == EncodeGroup(DecodeGroup(d[..4])) + EncodeGroups(DecodeSextets(d[4..]))
  {
    var g, y := DecodeGroup(d[..4]), DecodeSextets(d[4..]);
    var x := g + y;
    assert DecodeSextets(d) == x;
    assert x[..3] == g && x[3..] == y;
  }

  /**
   * What the validating decoder returns is determined by the text: its reference
   * encoding is the canonical spelling of the text's data characters, so the octets
   * are `DecodeSextets` of that spelling and nothing else.
   */
  lemma AcceptedIsCanonical(t: string)
    requires B64DecodeValidate(t).Some?
    ensures AllAlphabet(t[..DataLength(t)]) && DataLength(t) % 4 != 1
    ensures EncodeGroups(B64DecodeValidate(t).value) == Canon(t[..DataLength(t)])
  {
    EncodeOfDecode(t[..DataLength(t)]);
  }
}
