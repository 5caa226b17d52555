/**
  Filename resolution for a download: the `content-disposition` header is
  matched against `attachment; filename=(\S+)`, and only when the header is
  absent is the last path segment of the response URL used.
 */
module Filename {
  import opened Wrappers
  import opened Http

  /** The literal part of the pattern `attachment; filename=(\S+)`. */
  const Prefix: string := "attachment; filename="

  /** ASCII whitespace, what `\s` matches among the characters a header may hold. */
  predicate IsSpace(c: char) {
    c == ' ' || ('\t' <= c <= '\r')
  }

  /** A byte a header value may contain for `to_str` to succeed: visible ASCII or tab. */
  predicate IsVisible(c: char) {
    c == '\t' || (' ' <= c <= '~')
  }

  predicate AllVisible(s: string) {
    forall k :: 0 <= k < |s| ==> IsVisible(s[k])
  }

  predicate NoSpace(s: string) {
    forall k :: 0 <= k < |s| ==> !IsSpace(s[k])
  }

  /** The pattern matches `s` starting at position `i`. */
  predicate MatchAt(s: string, i: int) {
    0 <= i && i + |Prefix| < |s| && s[i..i + |Prefix|] == Prefix && !IsSpace(s[i + |Prefix|])
  }

  /** `i` is the leftmost position at which the pattern matches. */
  predicate Leftmost(s: string, i: int) {
    MatchAt(s, i) && forall j :: 0 <= j < i ==> !MatchAt(s, j)
  }

  /** The end of the maximal run of non-whitespace characters of `s` starting at `k`. */
  function RunEnd(s: string, k: nat): (e: nat)
    requires k <= |s|
    ensures k <= e <= |s|
    ensures forall j :: k <= j < e ==> !IsSpace(s[j])
    ensures e == |s| || IsSpace(s[e])
    decreases |s| - k
  {
    if k == |s| || IsSpace(s[k]) then k else RunEnd(s, k + 1)
  }

  /** The leftmost position at or after `i` where the pattern matches, if any. */
  function FindFrom(s: string, i: nat): (r: Option<nat>)
    ensures r.Some? ==> i <= r.value && MatchAt(s, r.value)
    ensures r.Some? ==> forall j :: i <= j < r.value ==> !MatchAt(s, j)
    ensures r.None? ==> forall j :: i <= j ==> !MatchAt(s, j)
    decreases |s| - i
  {
    if i + |Prefix| >= |s| then None
    else if MatchAt(s, i) then Some(i)
    else FindFrom(s, i + 1)
  }

  /**
    The capture group of `attachment; filename=(\S+)` on its leftmost match:
    the maximal non-whitespace run after the leftmost occurrence of the
    literal that is followed by at least one non-whitespace character.
   */
  function Capture(s: string): (r: Option<string>)
    ensures r.Some? <==> exists i :: MatchAt(s, i)
    ensures r.Some? ==> exists i :: Leftmost(s, i) && r.value == s[i + |Prefix|..RunEnd(s, i + |Prefix|)]
    ensures r.Some? ==> |r.value| > 0 && NoSpace(r.value)
  {
    match FindFrom(s, 0)
    case None => None
    case Some(i) =>
      assert Leftmost(s, i);
      Some(s[i + |Prefix|..RunEnd(s, i + |Prefix|)])
  }

  /**
    The filename named by the `content-disposition` header: None when the
    header is absent, an error when it is present but is not text or does
    not match the pattern.
   */
  function FromDisposition(r: Response): (x: Result<Option<string>, Error>)
    ensures r.disposition.None? ==> x == Success(None)
    ensures r.disposition.Some? && !AllVisible(r.disposition.value) ==> x == Failure(HeaderNotText)
    ensures r.disposition.Some? && AllVisible(r.disposition.value) ==>
              (x.Success? <==> exists i :: MatchAt(r.disposition.value, i))
    ensures r.disposition.Some? && AllVisible(r.disposition.value) && x.Failure? ==>
              x.error == DispositionUnparsable(r.disposition.value)
    ensures r.disposition.Some? && x.Success? ==> x.value == Capture(r.disposition.value) && x.value.Some?
  {
    match r.disposition
    case None => Success(None)
    case Some(h) =>
      if !AllVisible(h) then Failure(HeaderNotText)
      else
        match Capture(h)
        case None => Failure(DispositionUnparsable(h))
        case Some(name) => Success(Some(name))
  }

  /**
    The target filename of a response: the header's filename when the header
    is present (and failure when it cannot be parsed), otherwise the last
    path segment of the URL, which may be empty.
   */
  function ParseFilename(r: Response): (x: Result<string, Error>)
    ensures r.disposition.None? ==>
              (x.Success? <==> r.pathSegments.Some? && |r.pathSegments.value| > 0)
    ensures r.disposition.None? && x.Success? ==>
              x.value == r.pathSegments.value[|r.pathSegments.value| - 1]
    ensures r.disposition.None? && x.Failure? ==> x.error == NoFilenameInUrl
    ensures r.disposition.Some? ==>
              (x.Success? <==> AllVisible(r.disposition.value) && exists i :: MatchAt(r.disposition.value, i))
    ensures r.disposition.Some? && x.Success? ==>
              |x.value| > 0 && NoSpace(x.value) &&
              exists i :: Leftmost(r.disposition.value, i) &&
                x.value == r.disposition.value[i + |Prefix|..RunEnd(r.disposition.value, i + |Prefix|)]
    ensures r.disposition.Some? && !AllVisible(r.disposition.value) ==> x == Failure(HeaderNotText)
    ensures r.disposition.Some? && AllVisible(r.disposition.value) && x.Failure? ==>
              x.error == DispositionUnparsable(r.disposition.value)
  {
    var fromHeader :- FromDisposition(r);
    if fromHeader.Some? then Success(fromHeader.value)
    else
      match r.pathSegments
      case None => Failure(NoFilenameInUrl)
      case Some(segments) =>
        if |segments| == 0 then Failure(NoFilenameInUrl) else Success(segments[|segments| - 1])
  }

  /** A run that is non-whitespace and stops at whitespace or the end is the one `RunEnd` finds. */
  lemma RunEndUnique(s: string, k: nat, e: nat)
    requires k <= e <= |s|
    requires NoSpace(s[k..e])
    requires e == |s| || IsSpace(s[e])
    ensures RunEnd(s, k) == e
  {
    assert forall j :: k <= j < e ==> s[j] == s[k..e][j - k];
  }

  /**
    Rendering a header as `attachment; filename=<name>` followed by nothing or
    by whitespace and anything else, and parsing it back, gives `<name>`.
   */
  lemma {:induction false} DispositionRoundTrip(name: string, rest: string)
    requires |name| > 0 && NoSpace(name)
    requires rest == [] || IsSpace(rest[0])
    ensures Capture(Prefix + name + rest) == Some(name)
  {
    var s := Prefix + name + rest;
    var k := |Prefix|;
    assert s[0..k] == Prefix;
    assert s[k] == name[0];
    assert MatchAt(s, 0);
    assert s[k..k + |name|] == name;
    assert k + |name| == |s| || s[k + |name|] == rest[0];
    RunEndUnique(s, k, k + |name|);
  }

  /** When the header is present the URL is never consulted. */
  lemma HeaderDecidesAlone(r: Response, segments: Option<seq<string>>)
    requires r.disposition.Some?
    ensures ParseFilename(r) == ParseFilename(r.(pathSegments := segments))
  {
  }

  /** A header with the token `name=` instead of `filename=` fails, whatever the URL. */
  lemma MalformedHeaderFails(segments: Option<seq<string>>)
    ensures ParseFilename(Response(Some("attachment; name=foo"), segments, None, false))
            == Failure(DispositionUnparsable("attachment; name=foo"))
  {
  }

  lemma PrefixVisible()
    ensures AllVisible(Prefix)
  {
  }

  lemma VisibleConcat(a: string, b: string)
    requires AllVisible(a) && AllVisible(b)
    ensures AllVisible(a + b)
  {
  }

  /**
    A header `attachment; filename=<name>` with a visible, whitespace-free
    `<name>` resolves to `<name>`, whatever the URL.
   */
  lemma HeaderNameWins(name: string, segments: Option<seq<string>>, length: Option<nat>, acceptRanges: bool)
    requires |name| > 0 && NoSpace(name) && AllVisible(name)
    ensures ParseFilename(Response(Some(Prefix + name), segments, length, acceptRanges)) == Success(name)
  {
    var header := Prefix + name;
    DispositionRoundTrip(name, "");
    assert Prefix + name + "" == header;
    PrefixVisible();
    VisibleConcat(Prefix, name);
    assert FromDisposition(Response(Some(header), segments, length, acceptRanges)) == Success(Some(name));
  }

  /** A well-formed header wins over the URL's last segment. */
  lemma HeaderPreferredOverUrl()
    ensures ParseFilename(Response(Some("attachment; filename=update.tar"), Some(["api", "file"]), None, false))
            == Success("update.tar")
  {
    assert Prefix + "update.tar" == "attachment; filename=update.tar";
    HeaderNameWins("update.tar", Some(["api", "file"]), None, false);
  }

  /** A quoted value keeps its quotes: the pattern does not understand quoting. */
  lemma QuotedValueKeepsQuotes()
    ensures ParseFilename(Response(Some("attachment; filename=\"a.bin\""), None, None, false))
            == Success("\"a.bin\"")
  {
    assert Prefix + "\"a.bin\"" == "attachment; filename=\"a.bin\"";
    HeaderNameWins("\"a.bin\"", None, None, false);
  }

  /** Without the header, a URL ending in `/` resolves to the empty filename. */
  lemma TrailingSlashGivesEmptyName()
    ensures ParseFilename(Response(None, Some(["files", ""]), None, false)) == Success("")
  {
  }
}
