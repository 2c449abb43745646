/**
 * The container format sniffer of `audio_text_processor/audio_handler.py`
 * (`detect_audio_format`) and the identity table `SUPPORTED_AUDIO_FORMATS` of
 * `config/settings.py` that it returns its tags from.
 */
module AudioFormats {
  import opened Wrappers
  import opened Bytes

  /** `SUPPORTED_AUDIO_FORMATS`: each format name maps to its own file extension. */
  const SupportedAudioFormats: map<string, string> :=
    map["mp3" := "mp3", "wav" := "wav", "ogg" := "ogg", "flac" := "flac", "m4a" := "m4a"]

  // Magic bytes, spelled out as octets.
  const Id3: seq<Byte> := [0x49, 0x44, 0x33]           // "ID3": an ID3v2 tag before MPEG audio
  const MpegSync: seq<Byte> := [0xFF, 0xFB]            // MPEG-1 Layer III frame sync
  const Riff: seq<Byte> := [0x52, 0x49, 0x46, 0x46]    // "RIFF"
  const Wave: seq<Byte> := [0x57, 0x41, 0x56, 0x45]    // "WAVE"
  const OggS: seq<Byte> := [0x4F, 0x67, 0x67, 0x53]    // "OggS", section 6 of RFC 3533
  const FLaC: seq<Byte> := [0x66, 0x4C, 0x61, 0x43]    // "fLaC"
  const Ftyp: seq<Byte> := [0x66, 0x74, 0x79, 0x70]    // "ftyp"

  /** Python's slice `b[i:j]` for `0 <= i <= j`: both bounds are clamped to the length. */
  function Slice(b: seq<Byte>, i: nat, j: nat): (s: seq<Byte>)
    requires i <= j
    ensures |s| <= j - i
    ensures j <= |b| ==> s == b[i..j]
  {
    var hi := if j <= |b| then j else |b|;
    var lo := if i <= hi then i else hi;
    b[lo..hi]
  }

  /** Python's `needle in hay` on bytes: `needle` occurs somewhere in `hay`. */
  function Contains(hay: seq<Byte>, needle: seq<Byte>): bool
  {
    if |hay| < |needle| then false
    else hay[..|needle|] == needle || (|hay| > 0 && Contains(hay[1..], needle))
  }

  /**
   * `detect_audio_format`: an ordered chain of magic-byte tests; the first that
   * matches decides the tag, and None means the format is unknown.
   */
  function DetectAudioFormat(b: seq<Byte>): (r: Option<string>)
    ensures r.Some? ==> r.value in SupportedAudioFormats && SupportedAudioFormats[r.value] == r.value
    ensures |b| < 2 ==> r == None
  {
    if StartsWith(b, Id3) || StartsWith(b, MpegSync) then Some(SupportedAudioFormats["mp3"])
    else if StartsWith(b, Riff) && Contains(Slice(b, 8, 12), Wave) then Some(SupportedAudioFormats["wav"])
    else if StartsWith(b, OggS) then Some(SupportedAudioFormats["ogg"])
    else if StartsWith(b, FLaC) then Some(SupportedAudioFormats["flac"])
    else if StartsWith(b, Ftyp) then Some(SupportedAudioFormats["m4a"])
    else None
  }

  // ---------------------------------------------------------------------------
  // Reference: the signature table as ordered data
  // ---------------------------------------------------------------------------

  /**
   * A signature: a prefix, plus a secondary marker that must sit at a fixed offset
   * (an empty marker asks for nothing more).
   */
  datatype Signature = Signature(prefix: seq<Byte>, marker: seq<Byte>, offset: nat, tag: string)

  predicate Matches(s: Signature, b: seq<Byte>)
  {
    StartsWith(b, s.prefix)
    && s.offset + |s.marker| <= |b|
    && b[s.offset..s.offset + |s.marker|] == s.marker
  }

  /** The signatures in priority order. */
  const Signatures: seq<Signature> := [
    Signature(Id3, [], 0, "mp3"),
    Signature(MpegSync, [], 0, "mp3"),
    Signature(Riff, Wave, 8, "wav"),
    Signature(OggS, [], 0, "ogg"),
    Signature(FLaC, [], 0, "flac"),
    Signature(Ftyp, [], 0, "m4a")
  ]

  /** The tag of the first signature in `table` that matches `b`. */
  function FirstMatch(table: seq<Signature>, b: seq<Byte>): Option<string>
  {
    if |table| == 0 then None
    else if Matches(table[0], b) then Some(table[0].tag)
    else FirstMatch(table[1..], b)
  }

  // ---------------------------------------------------------------------------
  // Lemmas
  // ---------------------------------------------------------------------------

  /** A needle at least as long as the haystack occurs in it only as all of it. */
  lemma {:induction false} ContainsShortHay(hay: seq<Byte>, needle: seq<Byte>)
    requires |hay| <= |needle|
    ensures Contains(hay, needle) <==> hay == needle
  {
    if |hay| > 0 && |hay| == |needle| {
      assert hay[..|needle|] == hay;
      if |hay[1..]| < |needle| {
        assert !Contains(hay[1..], needle);
      }
    }
  }

  /**
   * The WAVE test: since `audio_bytes[8:12]` is at most four octets long, `b'WAVE' in`
   * it holds exactly when octets 8 to 11 are present and spell `WAVE`.
   */
  lemma WaveMarker(b: seq<Byte>)
    ensures Contains(Slice(b, 8, 12), Wave) <==> |b| >= 12 && b[8..12] == Wave
  {
    ContainsShortHay(Slice(b, 8, 12), Wave);
  }

  /** A signature without a marker is a plain prefix test. */
  lemma PrefixOnlyMatches(s: Signature, b: seq<Byte>)
    requires s.marker == [] && s.offset == 0
    ensures Matches(s, b) <==> StartsWith(b, s.prefix)
  {
    assert b[0..0] == [];
  }

  /** One step of the search: the head of the table is tried before the rest. */
  lemma FirstMatchStep(table: seq<Signature>, b: seq<Byte>)
    requires |table| > 0
    ensures FirstMatch(table, b) == if Matches(table[0], b) then Some(table[0].tag) else FirstMatch(table[1..], b)
  {
  }

  /** The table from the wav signature on is the tail of the chain of tests. */
  lemma LaterSignatures(b: seq<Byte>)
    ensures FirstMatch(Signatures[2..], b)
         == if StartsWith(b, Riff) && Contains(Slice(b, 8, 12), Wave) then Some("wav")
            else if StartsWith(b, OggS) then Some("ogg")
            else if StartsWith(b, FLaC) then Some("flac")
            else if StartsWith(b, Ftyp) then Some("m4a")
            else None
  {
    var t2 := Signatures[2..];
    var t3 := t2[1..];
    var t4 := t3[1..];
    var t5 := t4[1..];
    var m4a := FirstMatch(t5, b);
    assert m4a == if StartsWith(b, Ftyp) then Some("m4a") else None by {
      PrefixOnlyMatches(t5[0], b);
      FirstMatchStep(t5, b);
      assert t5[1..] == [];
    }
    var flac := FirstMatch(t4, b);
    assert flac == if StartsWith(b, FLaC) then Some("flac") else m4a by {
      PrefixOnlyMatches(t4[0], b);
      FirstMatchStep(t4, b);
    }
    var ogg := FirstMatch(t3, b);
    assert ogg == if StartsWith(b, OggS) then Some("ogg") else flac by {
      PrefixOnlyMatches(t3[0], b);
      FirstMatchStep(t3, b);
    }
    assert FirstMatch(t2, b) == if StartsWith(b, Riff) && Contains(Slice(b, 8, 12), Wave) then Some("wav") else ogg by {
      WaveMarker(b);
      FirstMatchStep(t2, b);
    }
  }

  /** The chain of tests is the ordered table read front to back. */
  lemma DetectIsFirstMatch(b: seq<Byte>)
    ensures DetectAudioFormat(b) == FirstMatch(Signatures, b)
  {
    var t := Signatures;
    var t1 := t[1..];
    LaterSignatures(b);
    assert FirstMatch(t1, b) == if StartsWith(b, MpegSync) then Some("mp3") else FirstMatch(t1[1..], b) by {
      PrefixOnlyMatches(t1[0], b);
      FirstMatchStep(t1, b);
    }
    assert FirstMatch(t, b) == if StartsWith(b, Id3) then Some("mp3") else FirstMatch(t1, b) by {
      PrefixOnlyMatches(t[0], b);
      FirstMatchStep(t, b);
    }
  }

  /**
   * No two signatures match the same bytes: the priority order never decides
   * between two formats.
   */
  lemma SignaturesUnambiguous(b: seq<Byte>, i: nat, j: nat)
    requires i < j < |Signatures|
    ensures !(Matches(Signatures[i], b) && Matches(Signatures[j], b))
  {
    var si, sj := Signatures[i], Signatures[j];
    var k := if si.prefix[0] != sj.prefix[0] then 0 else 1;
    PrefixesClash(si, sj, k, b);
  }

  /** Two signatures whose prefixes differ at some position never match the same bytes. */
  lemma PrefixesClash(s: Signature, t: Signature, k: nat, b: seq<Byte>)
    requires k < |s.prefix| && k < |t.prefix| && s.prefix[k] != t.prefix[k]
    ensures !(Matches(s, b) && Matches(t, b))
  {
    assert StartsWith(b, s.prefix) ==> b[k] == s.prefix[k];
  }

  /** The first match of a table is some matching entry of it, and there is one. */
  lemma {:induction false} FirstMatchIsAMatch(table: seq<Signature>, b: seq<Byte>)
    ensures FirstMatch(table, b).Some? <==> exists i :: 0 <= i < |table| && Matches(table[i], b)
    ensures FirstMatch(table, b).Some? ==>
      exists i :: (0 <= i < |table| && Matches(table[i], b) && table[i].tag == FirstMatch(table, b).value
                   && forall j :: 0 <= j < i ==> !Matches(table[j], b))
  {
    if |table| > 0 {
      FirstMatchIsAMatch(table[1..], b);
      if Matches(table[0], b) {
        assert FirstMatch(table, b) == Some(table[0].tag);
      } else {
        if FirstMatch(table, b).Some? {
          var i :| 0 <= i < |table[1..]| && Matches(table[1..][i], b)
            && table[1..][i].tag == FirstMatch(table, b).value
            && forall j :: 0 <= j < i ==> !Matches(table[1..][j], b);
          assert table[i + 1] == table[1..][i];
          forall j | 0 <= j < i + 1 ensures !Matches(table[j], b) {
            if j > 0 { assert table[j] == table[1..][j - 1]; }
          }
        }
        forall i | 0 <= i < |table| && Matches(table[i], b)
          ensures exists k :: 0 <= k < |table[1..]| && Matches(table[1..][k], b)
        {
          assert table[1..][i - 1] == table[i];
        }
      }
    }
  }

  /**
   * The order of the chain does not change the answer: the result is a tag exactly
   * when some signature with that tag matches.
   */
  lemma DetectIffSomeSignature(b: seq<Byte>, tag: string)
    ensures DetectAudioFormat(b) == Some(tag) <==>
      exists i :: 0 <= i < |Signatures| && Matches(Signatures[i], b) && Signatures[i].tag == tag
  {
    DetectIsFirstMatch(b);
    FirstMatchIsAMatch(Signatures, b);
    if exists i :: 0 <= i < |Signatures| && Matches(Signatures[i], b) && Signatures[i].tag == tag {
      var i :| 0 <= i < |Signatures| && Matches(Signatures[i], b) && Signatures[i].tag == tag;
      var f :| 0 <= f < |Signatures| && Matches(Signatures[f], b)
        && Signatures[f].tag == FirstMatch(Signatures, b).value
        && forall j :: 0 <= j < f ==> !Matches(Signatures[j], b);
      if f < i {
        SignaturesUnambiguous(b, f, i);
      }
    }
  }

  /** The result is None or one of the five tags, and each tag maps to itself. */
  lemma DetectResultIsSupported(b: seq<Byte>)
    ensures DetectAudioFormat(b) in {None, Some("mp3"), Some("wav"), Some("ogg"), Some("flac"), Some("m4a")}
    ensures DetectAudioFormat(b).Some? ==> SupportedAudioFormats[DetectAudioFormat(b).value] == DetectAudioFormat(b).value
  {
  }

  /** `ID3` or `FF FB` at the front means mp3, whatever follows, even nothing. */
  lemma Mp3Rule(b: seq<Byte>)
    requires StartsWith(b, Id3) || StartsWith(b, MpegSync)
    ensures DetectAudioFormat(b) == Some("mp3")
  {
  }

  /** `RIFF` at the front is wav exactly when octets 8 to 11 are `WAVE`. */
  lemma WavRule(b: seq<Byte>)
    requires StartsWith(b, Riff)
    ensures DetectAudioFormat(b) == Some("wav") <==> |b| >= 12 && b[8..12] == Wave
    ensures !(|b| >= 12 && b[8..12] == Wave) ==> DetectAudioFormat(b) == None
  {
    WaveMarker(b);
    LeadingOctets(b);
  }

  /** The three plain prefix rules. */
  lemma PrefixRules(b: seq<Byte>)
    ensures StartsWith(b, OggS) ==> DetectAudioFormat(b) == Some("ogg")
    ensures StartsWith(b, FLaC) ==> DetectAudioFormat(b) == Some("flac")
    ensures StartsWith(b, Ftyp) ==> DetectAudioFormat(b) == Some("m4a")
  {
    if |b| >= 2 {
      LeadingOctets(b);
    }
  }

  /** The first two octets are what decides between the signatures. */
  lemma LeadingOctets(b: seq<Byte>)
    requires |b| >= 2
    ensures forall p: seq<Byte> :: 2 <= |p| && StartsWith(b, p) ==> b[0] == p[0] && b[1] == p[1]
  {
    forall p: seq<Byte> | 2 <= |p| && StartsWith(b, p) ensures b[0] == p[0] && b[1] == p[1] {
      assert b[..|p|][0] == b[0] && b[..|p|][1] == b[1];
    }
  }

  /** Empty and one-octet inputs are unknown; nothing past the end is read. */
  lemma ShortInputUnknown(b: seq<Byte>)
    requires |b| < 2
    ensures DetectAudioFormat(b) == None
  {
  }

  /**
   * An ISO/IEC 14496-12 file carries `ftyp` at offset 4, after the box size; the
   * offset-0 test does not see it, so such a file is reported unknown.
   */
  lemma BoxedFtypUnknown(size: seq<Byte>, rest: seq<Byte>)
    requires |size| == 4 && size[0] == 0x00
    ensures DetectAudioFormat(size + Ftyp + rest) == None
  {
    var b := size + Ftyp + rest;
    assert b[0] == 0x00;
  }
}
