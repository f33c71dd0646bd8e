/**
 * The one piece of logic in the driver script: the language code handed to
 * the synthesis service is derived from the voice name by keeping its first
 * two `-`-separated segments (`en-US-Wavenet-F` speaks `en-US`).
 */
module Doc2Audiobook {
  import opened PyStr

  const DASH: char := '-'

  /** The voice the script synthesises with. */
  const USE_VOICE: string := "en-US-Wavenet-F"

  /** At most the first two items of `parts`, as the slice `parts[0:2]` gives them. */
  function FirstTwo(parts: seq<string>): (r: seq<string>)
    ensures r <= parts
    ensures |r| == if |parts| < 2 then |parts| else 2
  {
    parts[..if |parts| < 2 then |parts| else 2]
  }

  /** `'-'.join(voice.split('-')[0:2])` */
  function LanguageTag(voice: string): (tag: string)
  {
    Join(FirstTwo(Split(voice, DASH)), DASH)
  }

  /** The segments of the tag are exactly the first two segments of the voice (or its only one). */
  lemma LanguageTagSegments(voice: string)
    ensures Split(LanguageTag(voice), DASH) == FirstTwo(Split(voice, DASH))
  {
    var parts := Split(voice, DASH);
    SplitJoin(FirstTwo(parts), DASH);
  }

  /** The tag is a prefix of the voice name. */
  lemma LanguageTagIsPrefix(voice: string)
    ensures LanguageTag(voice) <= voice
  {
    var parts := Split(voice, DASH);
    JoinSplit(voice, DASH);
    if |parts| > 2 {
      var head, tail := parts[..2], parts[2..];
      assert parts == head + tail;
      JoinAppend(head, tail, DASH);
      var tag, rest := Join(head, DASH), [DASH] + Join(tail, DASH);
      assert LanguageTag(voice) == tag;
      assert voice == tag + rest;
      assert voice[..|tag|] == tag;
    } else {
      assert FirstTwo(parts) == parts;
    }
  }

  /** The tag contains at most one `-`. */
  lemma LanguageTagDashes(voice: string)
    ensures multiset(LanguageTag(voice))[DASH] <= 1
  {
    var parts := FirstTwo(Split(voice, DASH));
    JoinCount(parts, DASH);
  }

  /** The tag is the whole voice name exactly when the name has at most one `-`. */
  lemma LanguageTagIdentity(voice: string)
    ensures LanguageTag(voice) == voice <==> multiset(voice)[DASH] <= 1
  {
    JoinSplit(voice, DASH);
    SplitCount(voice, DASH);
    LanguageTagDashes(voice);
    var parts := Split(voice, DASH);
    if |parts| <= 2 {
      assert FirstTwo(parts) == parts;
    }
  }

  /** A name without any `-`, the empty name included, is its own tag. */
  lemma LanguageTagWithoutDash(voice: string)
    requires DASH !in voice
    ensures LanguageTag(voice) == voice
  {
    LanguageTagIdentity(voice);
  }

  /** Deriving the tag a second time changes nothing. */
  lemma LanguageTagIdempotent(voice: string)
    ensures LanguageTag(LanguageTag(voice)) == LanguageTag(voice)
  {
    LanguageTagDashes(voice);
    LanguageTagIdentity(LanguageTag(voice));
  }

  /** A name built from two dash-free segments and any further ones is tagged by the first two. */
  lemma LanguageTagOfSegments(voice: string, language: string, region: string, more: seq<string>)
    requires DASH !in language && DASH !in region
    requires NoneContains(more, DASH)
    requires voice == Join([language, region] + more, DASH)
    ensures LanguageTag(voice) == language + [DASH] + region
  {
    var parts := [language, region] + more;
    assert NoneContains(parts, DASH) by {
      assert forall i :: 2 <= i < |parts| ==> parts[i] == more[i - 2];
    }
    SplitJoin(parts, DASH);
    assert FirstTwo(parts) == [language, region];
    JoinFirst([language, region], DASH);
    assert [language, region][1..] == [region];
  }

  /** The script's voice is made of the segments `en`, `US`, `Wavenet` and `F`. */
  lemma UseVoiceSegments()
    ensures Join(["en", "US"] + ["Wavenet", "F"], DASH) == USE_VOICE
  {
    var parts := ["en", "US"] + ["Wavenet", "F"];
    JoinFirst(parts, DASH);
    JoinFirst(parts[1..], DASH);
    JoinFirst(parts[2..], DASH);
    assert parts[1..][1..] == parts[2..] && parts[2..][1..] == ["F"];
  }

  /** The script's voice is spoken in `en-US`. */
  lemma UseVoiceLanguage()
    ensures LanguageTag(USE_VOICE) == "en-US"
  {
    UseVoiceSegments();
    assert NoneContains(["Wavenet", "F"], DASH);
    LanguageTagOfSegments(USE_VOICE, "en", "US", ["Wavenet", "F"]);
    assert "en" + [DASH] + "US" == "en-US";
  }
}
