/**
 * `audio_text_processor/utils.py`: the padding-tolerant base64 frame decoder and
 * the unique file-name builder.
 */
module Utils {
  import opened Wrappers
  import opened Bytes
  import opened Base64

  /** `'=' * k` */
  function PadRun(k: nat): (s: string)
    ensures |s| == k && AllPad(s)
  {
    seq(k, _ => Pad)
  }

  /**
   * The padding rule of `decode_base64`: `padding_needed = 4 - len(data) % 4`, and
   * that many `=` are appended unless it is 4. The result is the shortest extension
   * of `data` by `=` characters whose length is a multiple of four.
   */
  function NormalizePadding(data: string): (t: string)
    ensures |t| % 4 == 0
    ensures |data| <= |t| < |data| + 4
    ensures t[..|data|] == data && AllPad(t[|data|..])
  {
    var paddingNeeded := 4 - |data| % 4;
    if paddingNeeded != 0 && paddingNeeded != 4 then
      var t := data + PadRun(paddingNeeded);
      assert t[|data|..] == PadRun(paddingNeeded);
      t
    else data
  }

  /**
   * `decode_base64`: normalise the padding, then decode strictly; every
   * `binascii.Error` or `ValueError` of the library becomes None. After
   * normalisation the library's padding checks can no longer fail: the input is
   * accepted exactly when its normalised form matches `[A-Za-z0-9+/]*={0,2}`.
   */
  function DecodeBase64(data: string): (r: Option<seq<Byte>>)
    ensures r.Some? <==> MatchesValidatePattern(NormalizePadding(data))
  {
    B64DecodeValidate(NormalizePadding(data))
  }

  /** `data` with its trailing `=` characters removed. */
  function TrimPadding(s: string): (r: string)
    ensures |r| <= |s| && r == s[..|r|] && AllPad(s[|r|..])
    ensures |r| == 0 || r[|r| - 1] != Pad
  {
    if |s| > 0 && s[|s| - 1] == Pad then
      var r := TrimPadding(s[..|s| - 1]);
      assert s[..|s| - 1][..|r|] == s[..|r|];
      assert forall i :: |r| <= i < |s| - 1 ==> s[..|s| - 1][i] == s[i];
      r
    else s
  }

  const DefaultPrefix: string := "response_audio"
  const DefaultExtension: string := "mp3"

  /**
   * `generate_unique_filename(prefix, extension)`: `{prefix}_{hex}.{extension}`,
   * where `hex` is the 32-digit hexadecimal form of a fresh random UUID.
   */
  function GenerateUniqueFilename(prefix: string := DefaultPrefix, extension: string := DefaultExtension,
                                  hex: string): string
  {
    prefix + "_" + hex + "." + extension
  }

  /** What `uuid.uuid4().hex` produces: 32 lower-case hexadecimal digits. */
  predicate IsUuidHex(h: string)
  {
    |h| == 32 && forall i :: 0 <= i < |h| ==> h[i] in "0123456789abcdef"
  }

  /** The text after the last `.` of a name (all of it when there is no `.`). */
  function AfterLastDot(name: string): (e: string)
    ensures '.' !in e
    ensures |e| <= |name| && e == name[|name| - |e|..]
  {
    if |name| == 0 then ""
    else if name[|name| - 1] == '.' then ""
    else
      var e := AfterLastDot(name[..|name| - 1]);
      assert name[..|name| - 1][|name| - 1 - |e|..] == name[|name| - 1 - |e|..|name| - 1];
      e + [name[|name| - 1]]
  }

  // ---------------------------------------------------------------------------
  // Padding rule
  // ---------------------------------------------------------------------------

  /**
   * A string whose length is a multiple of four is left unchanged; otherwise exactly
   * `4 - len % 4` characters are appended, all of them `=`.
   */
  lemma PaddingRule(data: string)
    ensures |data| % 4 == 0 ==> NormalizePadding(data) == data
    ensures |data| % 4 != 0 ==> NormalizePadding(data) == data + PadRun(4 - |data| % 4)
  {
  }

  // ---------------------------------------------------------------------------
  // Decoder acceptance and round trips
  // ---------------------------------------------------------------------------

  /** A character outside the alphabet that is not `=` rejects the whole input. */
  lemma ForeignCharacterRejected(data: string, i: nat)
    requires i < |data| && !IsAlphabet(data[i]) && data[i] != Pad
    ensures DecodeBase64(data) == None
  {
    var t := NormalizePadding(data);
    assert t[i] == data[i];
  }

  /**
   * An input one character past a multiple of four gets three `=` appended, more than
   * the pattern allows, and is rejected.
   */
  lemma OneCharacterOverRejected(data: string)
    requires |data| % 4 == 1
    ensures DecodeBase64(data) == None
  {
    var t := NormalizePadding(data);
    assert t[|t| - 3] == Pad;
  }

  /** An encoding is already a multiple of four long, so normalising leaves it alone. */
  lemma {:induction false} DecodeBase64RoundTrip(b: seq<Byte>)
    ensures DecodeBase64(Encode(b)) == Some(b)
  {
    DecodeEncode(b);
  }

  /** Trimming removes exactly a run of `=` that follows a non-`=` character. */
  lemma {:induction false} TrimPaddingOfSplit(d: string, p: string)
    requires AllPad(p) && (|d| == 0 || d[|d| - 1] != Pad)
    ensures TrimPadding(d + p) == d
  {
    if |p| > 0 {
      assert (d + p)[..|d + p| - 1] == d + p[..|p| - 1];
      TrimPaddingOfSplit(d, p[..|p| - 1]);
    } else {
      assert d + p == d;
    }
  }

  /** The unpadded encoding is the padded one with its trailing `=` removed. */
  lemma {:induction false} TrimmedEncoding(b: seq<Byte>)
    ensures TrimPadding(Encode(b)) == EncodeGroups(b)
  {
    var d := EncodeGroups(b);
    assert |d| == 0 || IsAlphabet(d[|d| - 1]);
    TrimPaddingOfSplit(d, PaddingFor(|b|));
  }

  /**
   * Round trip without padding: decoding an encoding whose trailing `=` were stripped
   * still gives back the octets, because the padding rule restores exactly them.
   */
  lemma {:induction false} DecodeUnpaddedRoundTrip(b: seq<Byte>)
    ensures DecodeBase64(TrimPadding(Encode(b))) == Some(b)
  {
    var t := TrimPadding(Encode(b));
    assert NormalizePadding(t) == Encode(b) by {
      TrimmedEncoding(b);
      EncodedLength(b);
    }
    assert B64DecodeValidate(Encode(b)) == Some(b) by {
      DecodeEncode(b);
    }
  }

  /**
   * The decoder discards the unused low bits of a short final group, so two different
   * inputs can decode to the same octets: `"QR"` and `"QQ=="` both decode to `A`.
   */
  lemma NonCanonicalInputAccepted()
    ensures DecodeBase64("QR") == DecodeBase64("QQ==") == Some([0x41])
  {
    assert NormalizePadding("QR") == "QR" + "==";
    assert "QQ==" == "QQ" + "==";
    PaddedPairDecodes("QR");
    PaddedPairDecodes("QQ");
    assert DecodeSextets("QR") == DecodeSextets("QQ") == [0x41];
  }

  /** Two data characters followed by `==` are accepted and decode as a short group. */
  lemma PaddedPairDecodes(d: string)
    requires |d| == 2 && AllAlphabet(d)
    ensures NormalizePadding(d + "==") == d + "=="
    ensures DecodeBase64(d + "==") == Some(DecodeSextets(d))
  {
    var t := d + "==";
    assert NormalizePadding(t) == t by {
      assert |t| % 4 == 0;
    }
    assert DataLength(t) == 2 by {
      DataLengthOfSplit(d, "==");
    }
    assert t[..2] == d;
    assert AllPad(t[2..]) by {
      assert t[2..] == "==";
    }
  }

  // ---------------------------------------------------------------------------
  // File names
  // ---------------------------------------------------------------------------

  /** For a fixed prefix and extension, distinct identifiers give distinct names. */
  lemma FilenameInjective(prefix: string, extension: string, h1: string, h2: string)
    requires GenerateUniqueFilename(prefix, extension, h1) == GenerateUniqueFilename(prefix, extension, h2)
    ensures h1 == h2
  {
    var n := GenerateUniqueFilename(prefix, extension, h1);
    assert |h1| == |h2|;
    assert n[|prefix| + 1..|prefix| + 1 + |h1|] == h1;
    assert GenerateUniqueFilename(prefix, extension, h2)[|prefix| + 1..|prefix| + 1 + |h2|] == h2;
  }

  /** The extension can be read back from the name: it is what follows the last `.`. */
  lemma {:induction false} FilenameExtension(prefix: string, extension: string, hex: string)
    requires '.' !in extension
    ensures AfterLastDot(GenerateUniqueFilename(prefix, extension, hex)) == extension
  {
    AfterLastDotOfSplit(prefix + "_" + hex, extension);
  }

  /** Whatever precedes the last `.` does not matter. */
  lemma {:induction false} AfterLastDotOfSplit(stem: string, extension: string)
    requires '.' !in extension
    ensures AfterLastDot(stem + "." + extension) == extension
  {
    var n := stem + "." + extension;
    if |extension| == 0 {
      assert n[|n| - 1] == '.';
    } else {
      var init, last := extension[..|extension| - 1], extension[|extension| - 1];
      assert AfterLastDot(n) == init + [last] by {
        assert n[|n| - 1] == last && last != '.';
        assert n[..|n| - 1] == stem + "." + init;
        assert '.' !in init by {
          assert forall c :: c in init ==> c in extension;
        }
        AfterLastDotOfSplit(stem, init);
      }
      assert extension == init + [last];
    }
  }
}
