/**
 * The file name the saver takes from a `Content-Disposition` header: the
 * first match of the pattern `filename="?([^"]+)"?`, a loose reading of the
 * filename parameter of section 4.1 of RFC 6266.
 */
module Disposition {
  import opened Wrappers

  const Token := "filename="

  /** The end of the run of non-quote characters that starts at `i`. */
  function QuoteFreeEnd(h: string, i: nat): (e: nat)
    requires i <= |h|
    ensures i <= e <= |h|
    ensures forall k :: i <= k < e ==> h[k] != '"'
    ensures e < |h| ==> h[e] == '"'
    decreases |h| - i
  {
    if i == |h| || h[i] == '"' then i else QuoteFreeEnd(h, i + 1)
  }

  predicate TokenAt(h: string, p: nat) {
    p + |Token| <= |h| && h[p..p + |Token|] == Token
  }

  /** Where the capture starts for a match at `p`: after the token and the optional quote. */
  function CaptureStart(h: string, p: nat): nat {
    var q := p + |Token|;
    if q < |h| && h[q] == '"' then q + 1 else q
  }

  /**
   * The group the pattern captures when the match starts at `p`: after the
   * token, an optional quote, then the longest non-empty run of non-quote
   * characters. When the quote is followed by another quote or by nothing,
   * dropping the optional quote does not help either, so there is no match.
   */
  function MatchAt(h: string, p: nat): (r: Option<string>)
    ensures r.Some? <==> TokenAt(h, p) && CaptureStart(h, p) < |h| && h[CaptureStart(h, p)] != '"'
    ensures r.Some? ==> |r.value| > 0 && '"' !in r.value
    ensures r.Some? ==> var s := CaptureStart(h, p);
                        s + |r.value| <= |h| && h[s..s + |r.value|] == r.value
                        && (s + |r.value| == |h| || h[s + |r.value|] == '"')
  {
    if !TokenAt(h, p) then None
    else
      var q := p + |Token|;
      if q < |h| && h[q] == '"' then
        if q + 1 < |h| && h[q + 1] != '"' then Some(h[q + 1..QuoteFreeEnd(h, q + 1)]) else None
      else if q < |h| then Some(h[q..QuoteFreeEnd(h, q)])
      else None
  }

  /** The leftmost match at or after position `p`, as `re.findall(...)[0]` finds it. */
  function FirstMatchFrom(h: string, p: nat): (r: Option<string>)
    requires p <= |h|
    ensures r.Some? ==> |r.value| > 0 && '"' !in r.value
    decreases |h| - p
  {
    if p == |h| then MatchAt(h, p)
    else if MatchAt(h, p).Some? then MatchAt(h, p)
    else FirstMatchFrom(h, p + 1)
  }

  /** `re.findall(r'filename="?([^"]+)"?', h)[0]`, or `None` when the list is empty. */
  function ExtractFilename(h: string): (r: Option<string>)
    ensures r.Some? ==> |r.value| > 0 && '"' !in r.value && |r.value| + |Token| <= |h|
  {
    FirstMatchFromIsLeftmost(h, 0);
    FirstMatchFrom(h, 0)
  }

  /** The search from `p` returns the match at the least position `q >= p` that has one. */
  lemma {:induction false} FirstMatchFromIsLeftmost(h: string, p: nat)
    requires p <= |h|
    ensures FirstMatchFrom(h, p).None? <==> forall q :: p <= q <= |h| ==> MatchAt(h, q).None?
    ensures FirstMatchFrom(h, p).Some? ==>
              exists q :: p <= q <= |h| && MatchAt(h, q) == FirstMatchFrom(h, p)
                          && forall k :: p <= k < q ==> MatchAt(h, k).None?
    decreases |h| - p
  {
    if p == |h| || MatchAt(h, p).Some? {
      assert MatchAt(h, p) == FirstMatchFrom(h, p);
    } else {
      FirstMatchFromIsLeftmost(h, p + 1);
      if FirstMatchFrom(h, p).Some? {
        var q :| p + 1 <= q <= |h| && MatchAt(h, q) == FirstMatchFrom(h, p)
                 && forall k :: p + 1 <= k < q ==> MatchAt(h, k).None?;
        assert forall k :: p <= k < q ==> MatchAt(h, k).None?;
      }
    }
  }

  /** No match can start past the end of the header. */
  lemma NoMatchBeyond(h: string, q: nat)
    requires q > |h|
    ensures MatchAt(h, q).None?
  {
  }

  /**
   * The extracted name is the capture of the leftmost match of the pattern,
   * and there is none exactly when the pattern matches nowhere.
   */
  lemma ExtractFilenameIsLeftmostMatch(h: string)
    ensures ExtractFilename(h).None? <==> forall q: nat :: MatchAt(h, q).None?
    ensures ExtractFilename(h).Some? ==>
              exists q :: 0 <= q <= |h| && MatchAt(h, q) == ExtractFilename(h)
                          && forall k :: 0 <= k < q ==> MatchAt(h, k).None?
  {
    FirstMatchFromIsLeftmost(h, 0);
    forall q: nat | q > |h| ensures MatchAt(h, q).None? {
      NoMatchBeyond(h, q);
    }
  }

  /** `'filename=' in content_disposition`: the token is a substring of the header. */
  predicate HasToken(h: string): (b: bool)
    ensures b <==> exists i, j :: 0 <= i <= j <= |h| && h[i..j] == Token
  {
    if exists p :: 0 <= p <= |h| && TokenAt(h, p) then
      true
    else
      assert forall i, j :: 0 <= i <= j <= |h| && h[i..j] == Token ==> TokenAt(h, i);
      false
  }

  /**
   * The name the download is saved under: the header's file name when there
   * is a header, it mentions `filename=` and the pattern matches, and the
   * default name otherwise.
   */
  function ChooseFilename(header: Option<string>, default: string): (name: string)
    ensures header.None? ==> name == default
    ensures name == default || (header.Some? && ExtractFilename(header.value) == Some(name))
    ensures |default| > 0 ==> |name| > 0
  {
    match header
    case None => default
    case Some(h) =>
      if HasToken(h) then
        match ExtractFilename(h)
        case Some(f) => f
        case None => default
      else default
  }

  /** A header without the token never yields a name, so the membership test is only a shortcut. */
  lemma TokenTestIsShortcut(h: string)
    requires !HasToken(h)
    ensures ExtractFilename(h).None?
  {
    ExtractFilenameIsLeftmostMatch(h);
    forall q: nat ensures MatchAt(h, q).None? {
      if q <= |h| {
        assert !TokenAt(h, q);
      }
    }
  }

  /** Whenever the pattern finds a name in the header, that name is the one chosen. */
  lemma ChooseFilenameTakesMatch(header: Option<string>, default: string)
    requires header.Some? && ExtractFilename(header.value).Some?
    ensures ChooseFilename(header, default) == ExtractFilename(header.value).value
  {
    if !HasToken(header.value) {
      TokenTestIsShortcut(header.value);
    }
  }

  const Attachment := "attachment; "

  /** The token does not occur in the first bytes of `attachment; filename=`. */
  lemma NoTokenInAttachment(h: string, p: nat)
    requires |h| >= |Attachment| + |Token| && h[..|Attachment| + |Token|] == Attachment + Token
    requires p < |Attachment|
    ensures !TokenAt(h, p)
  {
    var w := Attachment + Token;
    assert h[p..p + |Token|] == w[p..p + |Token|];
    assert w[p..p + |Token|][0] == w[p];
    assert w[p..p + |Token|][1] == w[p + 1];
  }

  /** A server that sends `attachment; filename="<name>"` gets `<name>` back. */
  lemma QuotedFilenameRoundTrip(name: string)
    requires |name| > 0 && '"' !in name
    ensures ExtractFilename(Attachment + Token + "\"" + name + "\"") == Some(name)
  {
    var h := Attachment + Token + "\"" + name + "\"";
    var q := |Attachment| + |Token|;
    assert h[..q] == Attachment + Token;
    forall p | 0 <= p < |Attachment| ensures MatchAt(h, p).None? {
      NoTokenInAttachment(h, p);
    }
    assert h[|Attachment|..q] == Token;
    assert h[q] == '"' && h[q + 1] == name[0];
    var e := QuoteFreeEnd(h, q + 1);
    assert h[q + 1..q + 1 + |name|] == name;
    assert h[q + 1 + |name|] == '"';
    assert forall k :: q + 1 <= k < q + 1 + |name| ==> h[k] == name[k - q - 1];
    assert e == q + 1 + |name|;
    assert MatchAt(h, |Attachment|) == Some(name);
    FirstMatchFromIsLeftmost(h, 0);
  }

  /** An unquoted name runs to the end of the header. */
  lemma BareFilenameRoundTrip(name: string)
    requires |name| > 0 && '"' !in name
    ensures ExtractFilename(Attachment + Token + name) == Some(name)
  {
    var h := Attachment + Token + name;
    var q := |Attachment| + |Token|;
    assert h[..q] == Attachment + Token;
    forall p | 0 <= p < |Attachment| ensures MatchAt(h, p).None? {
      NoTokenInAttachment(h, p);
    }
    assert h[|Attachment|..q] == Token;
    assert h[q..] == name;
    assert h[q] == name[0];
    assert TokenAt(h, |Attachment|);
    assert h[q..|h|] == name;
    assert forall k :: q <= k < |h| ==> h[k] == name[k - q];
    assert QuoteFreeEnd(h, q) == |h|;
    assert MatchAt(h, |Attachment|) == Some(name);
    FirstMatchFromIsLeftmost(h, 0);
  }

  /**
   * An opening quote right after the token followed by another quote, or by
   * the end of the header, gives no match there (`filename=""`), so a later
   * parameter or the default is used instead.
   */
  lemma EmptyQuotedNameIsSkipped(h: string, p: nat)
    requires TokenAt(h, p)
    requires p + |Token| < |h| && h[p + |Token|] == '"'
    requires p + |Token| + 1 == |h| || h[p + |Token| + 1] == '"'
    ensures MatchAt(h, p).None?
  {
  }
}
