/** Adapter: `XmlToJsonAdapter` presents a legacy XML source through the
    JSON interface, by deleting the `<data>` tags from the XML text and
    quoting what remains. The adaptee is represented by the text its
    `GetXml` returns. */
module Adapter {

  const OpenTag := "<data>"
  const CloseTag := "</data>"
  const JsonPrefix := "{ 'data': '"
  const JsonSuffix := "' }"

  /** `LegacyXmlData.GetXml`: `<data>Hello from XML</data>`. */
  const LegacyText := "Hello from XML"
  const LegacyXml := OpenTag + LegacyText + CloseTag

  /** `pat` occurs in `s` starting at index `i`. */
  predicate OccursAt(s: string, pat: string, i: int) {
    0 <= i && i + |pat| <= |s| && s[i..i + |pat|] == pat
  }

  predicate Occurs(s: string, pat: string) {
    exists i | 0 <= i <= |s| :: OccursAt(s, pat, i)
  }

  /** `s.Replace(pat, "")`: scans left to right and deletes each occurrence
      of `pat` that does not overlap one already deleted; the text is not
      rescanned, so deleting can join two pieces into a new occurrence. */
  function RemoveAll(s: string, pat: string): (r: string)
    requires |pat| > 0
    ensures |r| <= |s|
    decreases |s|
  {
    if |s| < |pat| then s
    else if s[..|pat|] == pat then RemoveAll(s[|pat|..], pat)
    else [s[0]] + RemoveAll(s[1..], pat)
  }

  /** `XmlToJsonAdapter.GetJson`, given the text of the adaptee's `GetXml`:
      both tags deleted, opening tags first, and the rest quoted as the
      value of a `data` field. */
  function GetJson(xml: string): (r: string)
    ensures |JsonPrefix| + |JsonSuffix| <= |r| <= |JsonPrefix| + |xml| + |JsonSuffix|
    ensures r[..|JsonPrefix|] == JsonPrefix && r[|r| - |JsonSuffix|..] == JsonSuffix
  {
    var r := JsonPrefix + RemoveAll(RemoveAll(xml, OpenTag), CloseTag) + JsonSuffix;
    assert r[..|JsonPrefix|] == JsonPrefix;
    assert r[|r| - |JsonSuffix|..] == JsonSuffix;
    r
  }

  /** An occurrence is either at the front or in the tail. */
  lemma OccursFrontOrTail(s: string, pat: string)
    requires |s| > 0
    ensures Occurs(s, pat) <==> OccursAt(s, pat, 0) || Occurs(s[1..], pat)
  {
    if Occurs(s, pat) && !OccursAt(s, pat, 0) {
      var i :| 0 <= i <= |s| && OccursAt(s, pat, i);
      assert s[1..][i - 1..i - 1 + |pat|] == s[i..i + |pat|];
      assert OccursAt(s[1..], pat, i - 1);
    }
    if Occurs(s[1..], pat) {
      var i :| 0 <= i <= |s[1..]| && OccursAt(s[1..], pat, i);
      assert s[i + 1..i + 1 + |pat|] == s[1..][i..i + |pat|];
      assert OccursAt(s, pat, i + 1);
    }
  }

  /** A text shorter than `pat` does not contain it. */
  lemma TooShortToOccur(s: string, pat: string)
    requires |s| < |pat|
    ensures !Occurs(s, pat)
  {
  }

  /** A text without `pat` is left as it is; a text with `pat` loses at
      least one occurrence, so it gets strictly shorter. */
  lemma {:induction false} RemoveAllFixedPoint(s: string, pat: string)
    requires |pat| > 0
    ensures RemoveAll(s, pat) == s <==> !Occurs(s, pat)
    ensures Occurs(s, pat) ==> |RemoveAll(s, pat)| < |s|
    decreases |s|
  {
    if |s| < |pat| {
      TooShortToOccur(s, pat);
    } else {
      OccursFrontOrTail(s, pat);
      if s[..|pat|] != pat {
        RemoveAllFixedPoint(s[1..], pat);
        assert s == [s[0]] + s[1..];
      }
    }
  }

  /** A leading occurrence is deleted and scanning resumes after it. */
  lemma RemoveLeading(pat: string, rest: string)
    requires |pat| > 0
    ensures RemoveAll(pat + rest, pat) == RemoveAll(rest, pat)
  {
    assert (pat + rest)[..|pat|] == pat;
    assert (pat + rest)[|pat|..] == rest;
  }

  /** No occurrence of `pat` starts inside `a` and ends inside `b` when
      the first character of `b` does not recur in `pat` after its first
      position, and `a` is free of `pat`. */
  lemma NoStraddle(a: string, b: string, pat: string)
    requires |pat| > 0 && |a| > 0 && |b| > 0 && b[0] !in pat[1..]
    requires !Occurs(a, pat)
    requires |a + b| >= |pat|
    ensures (a + b)[..|pat|] != pat
  {
    var s := a + b;
    if |a| >= |pat| {
      assert !OccursAt(a, pat, 0);
      assert a[..|pat|] == s[..|pat|];
    } else {
      assert s[..|pat|][|a|] == b[0];
      assert pat[1..][|a| - 1] == pat[|a|];
    }
  }

  /** A prefix `a` free of `pat` passes through unchanged, provided no
      occurrence can straddle the join: the first character of `b` does not
      recur inside `pat` after its first position. */
  lemma {:induction false} RemoveAllClearPrefix(a: string, b: string, pat: string)
    requires |pat| > 0 && |b| > 0 && b[0] !in pat[1..]
    requires !Occurs(a, pat)
    ensures RemoveAll(a + b, pat) == a + RemoveAll(b, pat)
    decreases |a|
  {
    var s := a + b;
    if |a| == 0 {
      assert s == b;
    } else if |s| < |pat| {
      TooShortToOccur(b, pat);
      RemoveAllFixedPoint(b, pat);
    } else {
      NoStraddle(a, b, pat);
      OccursFrontOrTail(a, pat);
      RemoveAllClearPrefix(a[1..], b, pat);
      assert s[1..] == a[1..] + b;
      assert a == [a[0]] + a[1..];
    }
  }

  /** A text that does not contain the first character of `pat` does not
      contain `pat`. */
  lemma MissingFirstCharacter(s: string, pat: string)
    requires |pat| > 0 && pat[0] !in s
    ensures !Occurs(s, pat)
  {
    forall i | 0 <= i <= |s| && i + |pat| <= |s|
      ensures !OccursAt(s, pat, i)
    {
      assert s[i..i + |pat|][0] == s[i];
    }
  }

  /** The closing tag does not contain the opening tag. */
  lemma CloseTagLacksOpenTag()
    ensures !Occurs(CloseTag, OpenTag)
  {
    OccursFrontOrTail(CloseTag, OpenTag);
    assert CloseTag[..|OpenTag|][1] != OpenTag[1];
    assert CloseTag[1..] == "/data>";
    MissingFirstCharacter(CloseTag[1..], OpenTag);
  }

  /** An XML element `<data>…</data>` whose text holds neither tag becomes
      the JSON field with exactly that text. */
  lemma {:induction false} WrappedTextIsQuoted(text: string)
    requires !Occurs(text, OpenTag) && !Occurs(text, CloseTag)
    ensures GetJson(OpenTag + text + CloseTag) == JsonPrefix + text + JsonSuffix
  {
    assert OpenTag + text + CloseTag == OpenTag + (text + CloseTag);
    RemoveLeading(OpenTag, text + CloseTag);
    assert OpenTag[1..] == "data>";
    RemoveAllClearPrefix(text, CloseTag, OpenTag);
    CloseTagLacksOpenTag();
    RemoveAllFixedPoint(CloseTag, OpenTag);
    assert CloseTag[1..] == "/data>";
    RemoveAllClearPrefix(text, CloseTag, CloseTag);
    RemoveLeading(CloseTag, []);
    assert CloseTag + [] == CloseTag;
    assert text + [] == text;
  }

  /** XML holding neither tag passes through unchanged between the
      quotes. */
  lemma TagFreeXmlIsQuoted(xml: string)
    requires !Occurs(xml, OpenTag) && !Occurs(xml, CloseTag)
    ensures GetJson(xml) == JsonPrefix + xml + JsonSuffix
  {
    RemoveAllFixedPoint(xml, OpenTag);
    RemoveAllFixedPoint(xml, CloseTag);
  }

  /** Deleting is not repeated until nothing is left: removing the tag from
      the middle of a split tag produces the tag. */
  lemma RemovalCanExposeTag()
    ensures RemoveAll("<da<data>ta>", OpenTag) == OpenTag
  {
    var s := "<da<data>ta>";
    assert s[..6][3] != OpenTag[3];
    assert s[1..] == "da<data>ta>";
    assert s[1..][..6][0] != OpenTag[0];
    assert s[2..] == "a<data>ta>";
    assert s[2..][..6][0] != OpenTag[0];
    assert s[3..] == OpenTag + "ta>";
    RemoveLeading(OpenTag, "ta>");
  }

  /** The legacy element's text holds neither tag. */
  lemma LegacyTextHasNoTags()
    ensures !Occurs(LegacyText, OpenTag) && !Occurs(LegacyText, CloseTag)
  {
    MissingFirstCharacter(LegacyText, OpenTag);
    MissingFirstCharacter(LegacyText, CloseTag);
  }

  /** The driver: the legacy XML comes out as `{ 'data': 'Hello from XML' }`. */
  lemma LegacyJson()
    ensures GetJson(LegacyXml) == "{ 'data': 'Hello from XML' }"
  {
    LegacyTextHasNoTags();
    WrappedTextIsQuoted(LegacyText);
  }
}
