/** The JWS compact serialisation (section 7.1 of RFC 7515): three base64url segments joined by periods. */
module Compact {
  import opened Common
  import Base64Url
  import Utf8

  function Segment(text: string): string { Base64Url.Encode(Utf8.Encode(text)) }

  function SigningInput(header: string, payload: string): string {
    Segment(header) + ['.'] + Segment(payload)
  }

  /** A segment read back into text, if it is base64url at all. */
  function SegmentText(segment: string): Option<string> {
    var b :- Base64Url.Decode(segment);
    Some(Utf8.Decode(b))
  }

  // ----- splitting -----

  predicate NoPeriod(s: string) { forall i :: 0 <= i < |s| ==> s[i] != '.' }

  /** The index of the first period, or the length. */
  function FirstPeriod(s: string): (i: nat)
    ensures i <= |s| && (forall k :: 0 <= k < i ==> s[k] != '.') && (i < |s| ==> s[i] == '.')
  {
    if s == [] || s[0] == '.' then 0
    else 1 + FirstPeriod(s[1..])
  }

  /** Exactly three segments: two periods and no more. */
  function SplitToken(s: string): Option<(string, string, string)> {
    var i := FirstPeriod(s);
    if i == |s| then None
    else
      var t := s[i + 1..];
      var j := FirstPeriod(t);
      if j == |t| then None
      else
        var u := t[j + 1..];
        if FirstPeriod(u) == |u| then Some((s[..i], t[..j], u)) else None
  }

  lemma FirstPeriodAt(a: string, rest: string)
    requires NoPeriod(a)
    ensures FirstPeriod(a + ['.'] + rest) == |a|
  {
    var s := a + ['.'] + rest;
    assert s[|a|] == '.' && (forall k :: 0 <= k < |a| ==> s[k] == a[k]);
  }

  predicate Joined(s: string, a: string, b: string, c: string) {
    s == a + ['.'] + b + ['.'] + c && NoPeriod(a) && NoPeriod(b) && NoPeriod(c)
  }

  lemma JoinedSplits(s: string, a: string, b: string, c: string)
    requires Joined(s, a, b, c)
    ensures SplitToken(s) == Some((a, b, c))
  {
    hide FirstPeriod;
    var t := b + ['.'] + c;
    assert s == a + ['.'] + t;
    FirstPeriodAt(a, t);
    FirstPeriodAt(b, c);
    assert s[|a| + 1..] == t && s[..|a|] == a && t[|b| + 1..] == c && t[..|b|] == b;
    FirstPeriodNone(c);
  }

  lemma SplitIsJoined(s: string, a: string, b: string, c: string)
    requires SplitToken(s) == Some((a, b, c))
    ensures Joined(s, a, b, c)
  {
    hide FirstPeriod;
    var i := FirstPeriod(s);
    var t := s[i + 1..];
    assert s == a + ['.'] + t;
    assert t == b + ['.'] + c;
  }

  /** Joined segments split back into themselves, and what splits is what was joined. */
  lemma SplitJoined(s: string, a: string, b: string, c: string)
    ensures SplitToken(s) == Some((a, b, c)) <==> Joined(s, a, b, c)
  {
    hide SplitToken, Joined;
    if Joined(s, a, b, c) {
      JoinedSplits(s, a, b, c);
    } else if SplitToken(s) == Some((a, b, c)) {
      SplitIsJoined(s, a, b, c);
    }
  }

  lemma FirstPeriodNone(c: string)
    requires NoPeriod(c)
    ensures FirstPeriod(c) == |c|
  {
  }

  lemma EncodedHasNoPeriod(b: seq<byte>)
    ensures NoPeriod(Base64Url.Encode(b))
  {
    hide Base64Url.Encode;
    Base64Url.EncodeInAlphabet(b);
    var s := Base64Url.Encode(b);
    forall i | 0 <= i < |s| ensures s[i] != '.' {
      assert Base64Url.Index(s[i]).Some?;
    }
  }

  lemma SegmentRoundTrip(text: string)
    ensures SegmentText(Segment(text)) == Some(text)
  {
    Base64Url.DecodeEncode(Utf8.Encode(text));
    Utf8.DecodeEncode(text);
  }

  /** A token made of two texts and a signature comes apart into them, and in one way only. */
  lemma CompactRoundTrip(header: string, payload: string, sig: seq<byte>)
    ensures var token := SigningInput(header, payload) + ['.'] + Base64Url.Encode(sig);
            && SplitToken(token) == Some((Segment(header), Segment(payload), Base64Url.Encode(sig)))
            && SegmentText(Segment(header)) == Some(header)
            && SegmentText(Segment(payload)) == Some(payload)
            && Base64Url.Decode(Base64Url.Encode(sig)) == Some(sig)
  {
    hide Base64Url.Encode, Base64Url.Decode, Utf8.Encode, Utf8.Decode, SplitToken;
    EncodedHasNoPeriod(Utf8.Encode(header));
    EncodedHasNoPeriod(Utf8.Encode(payload));
    EncodedHasNoPeriod(sig);
    SegmentRoundTrip(header);
    SegmentRoundTrip(payload);
    Base64Url.DecodeEncode(sig);
    SplitJoined(SigningInput(header, payload) + ['.'] + Base64Url.Encode(sig),
      Segment(header), Segment(payload), Base64Url.Encode(sig));
  }
}
