/** Swapping the authority of absolute URLs in a text (`swap_authorities`). The reference is a
    segmentation of the text into plain stretches and links; the scanner is proved to rewrite
    exactly the links of that segmentation, and its output to segment into the rewritten links. */
module Links {
  import opened Wrappers
  import opened Text

  // ---------- characters ----------

  predicate IsLetter(c: char) { 'a' <= c <= 'z' || 'A' <= c <= 'Z' }

  predicate IsSchemeChar(c: char) {
    IsLetter(c) || IsDigit(c) || c == '+' || c == '-' || c == '.'
  }

  predicate IsDelimiter(c: char) {
    || c == '/' || c == '?' || c == '#' || c == '"' || c == '\'' || c == '<' || c == '>' || c == ','
    || c == ' ' || c == '\t'
  }

  predicate SepAt(s: string, i: int) {
    0 <= i && i + 3 <= |s| && s[i] == ':' && s[i + 1] == '/' && s[i + 2] == '/'
  }

  // ---------- searches ----------

  ghost predicate NoSepBefore(s: string, end: nat) {
    forall i :: 0 <= i < end ==> !SepAt(s, i)
  }

  /** `find("://")`. */
  function FindSep(s: string): (found: Option<nat>)
    ensures found.Some? ==> SepAt(s, found.value)
  {
    FindSepFrom(s, 0)
  }

  function FindSepFrom(s: string, from: nat): (found: Option<nat>)
    ensures found.Some? ==> SepAt(s, found.value)
    decreases |s| - from
  {
    if from + 3 > |s| then None
    else if SepAt(s, from) then Some(from)
    else FindSepFrom(s, from + 1)
  }

  lemma {:induction false} FindSepFromFirst(s: string, from: nat)
    requires NoSepBefore(s, from)
    ensures match FindSepFrom(s, from)
            case None => NoSepBefore(s, |s|)
            case Some(sep) => NoSepBefore(s, sep)
    decreases |s| - from
  {
    if from + 3 <= |s| && !SepAt(s, from) {
      FindSepFromFirst(s, from + 1);
    }
  }

  /** The search finds the first separator exactly when there is one. */
  lemma FindSepExactly(s: string, found: Option<nat>)
    ensures FindSep(s) == found
       <==> match found
            case None => NoSepBefore(s, |s|)
            case Some(sep) => SepAt(s, sep) && NoSepBefore(s, sep)
  {
    FindSepFromFirst(s, 0);
    match (found, FindSep(s)) {
      case (Some(sep), Some(first)) =>
        assert sep < first ==> !(NoSepBefore(s, first) && SepAt(s, sep));
        assert first < sep ==> !NoSepBefore(s, sep);
      case _ =>
    }
  }

  /** Length of the leading stretch without a delimiter. */
  function AuthorityLen(s: string): (n: nat)
    ensures n <= |s|
    ensures n < |s| ==> IsDelimiter(s[n])
  {
    if s == [] || IsDelimiter(s[0]) then 0 else 1 + AuthorityLen(s[1..])
  }

  lemma {:induction false} AuthorityLenClean(s: string)
    ensures IsAuthority(s[..AuthorityLen(s)])
  {
    if s != [] && !IsDelimiter(s[0]) {
      AuthorityLenClean(s[1..]);
      assert s[..AuthorityLen(s)] == [s[0]] + s[1..][..AuthorityLen(s[1..])];
    }
  }

  /** Where the run of scheme characters ending at `end` begins. */
  function RunStart(s: string, end: nat): (start: nat)
    requires end <= |s|
    ensures start <= end
    ensures start > 0 ==> !IsSchemeChar(s[start - 1])
  {
    if end > 0 && IsSchemeChar(s[end - 1]) then RunStart(s, end - 1) else end
  }

  ghost predicate IsRun(s: string, start: nat, end: nat)
    requires start <= end <= |s|
  {
    forall i :: start <= i < end ==> IsSchemeChar(s[i])
  }

  lemma {:induction false} RunStartIsRun(s: string, end: nat)
    requires end <= |s|
    ensures IsRun(s, RunStart(s, end), end)
  {
    if end > 0 && IsSchemeChar(s[end - 1]) {
      RunStartIsRun(s, end - 1);
    }
  }

  /** Where the URL around the `://` at `sep` begins, or `sep` if no scheme stands before it. */
  function SchemeStart(s: string, sep: nat): (start: nat)
    requires sep <= |s|
    ensures start <= sep
  {
    var start := RunStart(s, sep);
    if start < sep && IsLetter(s[start]) then start else sep
  }

  // ---------- segments ----------

  datatype Segment = Plain(text: string) | Link(scheme: string, authority: string)

  function SegmentText(segment: Segment): string {
    match segment
    case Plain(text) => text
    case Link(scheme, authority) => scheme + "://" + authority
  }

  function Render(segments: seq<Segment>): string {
    if segments == [] then "" else SegmentText(segments[0]) + Render(segments[1..])
  }

  /** The authority after the `://` at `sep`, up to the first delimiter. */
  function AuthorityAt(s: string, sep: nat): string
    requires SepAt(s, sep)
  {
    s[sep + 3..][..AuthorityLen(s[sep + 3..])]
  }

  function AuthorityEnd(s: string, sep: nat): (end: nat)
    requires SepAt(s, sep)
    ensures sep + 3 <= end <= |s|
    ensures end < |s| ==> IsDelimiter(s[end])
  {
    sep + 3 + AuthorityLen(s[sep + 3..])
  }

  function Segments(s: string): (segments: seq<Segment>)
    ensures segments != []
    decreases |s|
  {
    match FindSep(s)
    case None => [Plain(s)]
    case Some(sep) =>
      var start := SchemeStart(s, sep);
      if start == sep then [Plain(s[..sep + 3])] + Segments(s[sep + 3..])
      else
        [Plain(s[..start]), Link(s[start..sep], AuthorityAt(s, sep))] + Segments(s[AuthorityEnd(s, sep)..])
  }

  ghost predicate IsScheme(s: string) {
    s != [] && IsLetter(s[0]) && forall i :: 0 <= i < |s| ==> IsSchemeChar(s[i])
  }

  ghost predicate IsAuthority(s: string) {
    forall i :: 0 <= i < |s| ==> !IsDelimiter(s[i])
  }

  ghost predicate IsLink(segment: Segment) {
    segment.Link? && IsScheme(segment.scheme) && IsAuthority(segment.authority)
  }

  /** What may follow an authority: nothing at all, or a delimiter. */
  ghost predicate ClosesAuthority(segments: seq<Segment>) {
    && segments != [] && segments[0].Plain?
    && if segments[0].text == [] then |segments| == 1 else IsDelimiter(segments[0].text[0])
  }

  /** A plain stretch that a link can follow: its scheme begins right after it. */
  ghost predicate BeforeLink(text: string) {
    FindSep(text) == None && (text != [] ==> !IsSchemeChar(text[|text| - 1]))
  }

  /** A plain stretch that ends in its only `://`, with no scheme before it. */
  ghost predicate EndsInBareSep(text: string) {
    |text| >= 3 && FindSep(text) == Some(|text| - 3) && SchemeStart(text, |text| - 3) == |text| - 3
  }

  /** The segment lists that describe some text: plain stretches that end where a scheme begins,
      at a `://` with no scheme before it, or at the end of the text. */
  ghost predicate WellSegmented(segments: seq<Segment>)
    decreases |segments|
  {
    && segments != [] && segments[0].Plain?
    && var text := segments[0].text;
       if |segments| == 1 then FindSep(text) == None
       else if segments[1].Link? then
         && BeforeLink(text) && IsLink(segments[1])
         && ClosesAuthority(segments[2..]) && WellSegmented(segments[2..])
       else
         && EndsInBareSep(text)
         && WellSegmented(segments[1..])
  }

  // ---------- rendering and segmenting are inverse ----------

  lemma RenderCons(segment: Segment, rest: seq<Segment>)
    ensures Render([segment] + rest) == SegmentText(segment) + Render(rest)
  {
  }

  lemma RenderTwo(first: Segment, second: Segment, rest: seq<Segment>)
    ensures Render([first, second] + rest) == SegmentText(first) + SegmentText(second) + Render(rest)
  {
  }

  lemma PlainText(text: string)
    ensures SegmentText(Plain(text)) == text
  {
  }

  lemma RenderPlain(text: string)
    ensures Render([Plain(text)]) == text
  {
  }

  /** A link found in a text, put between what stands before and after it, is the text. */
  lemma LinkSlices(s: string, sep: nat, start: nat)
    requires SepAt(s, sep) && start <= sep
    ensures s[start..AuthorityEnd(s, sep)] == SegmentText(Link(s[start..sep], AuthorityAt(s, sep)))
    ensures s == s[..start] + SegmentText(Link(s[start..sep], AuthorityAt(s, sep))) + s[AuthorityEnd(s, sep)..]
  {
    var end := AuthorityEnd(s, sep);
    assert AuthorityAt(s, sep) == s[sep + 3..end];
    assert s[sep..sep + 3] == "://";
    assert s[start..end] == s[start..sep] + s[sep..sep + 3] + s[sep + 3..end];
  }

  lemma {:induction false} RenderSegments(s: string)
    ensures Render(Segments(s)) == s
    decreases |s|
  {
    hide RunStart, FindSepFrom, AuthorityLen, Render, SegmentText;
    match FindSep(s) {
      case None =>
        RenderPlain(s);
      case Some(sep) =>
        var start := SchemeStart(s, sep);
        if start == sep {
          RenderSegments(s[sep + 3..]);
          RenderCons(Plain(s[..sep + 3]), Segments(s[sep + 3..]));
          PlainText(s[..sep + 3]);
        } else {
          PlainText(s[..start]);
          var rest := s[AuthorityEnd(s, sep)..];
          RenderSegments(rest);
          RenderTwo(Plain(s[..start]), Link(s[start..sep], AuthorityAt(s, sep)), Segments(rest));
          LinkSlices(s, sep, start);
        }
    }
  }

  lemma {:induction false} RunStartUnique(s: string, end: nat, start: nat)
    requires start <= end <= |s| && IsRun(s, start, end)
    requires start > 0 ==> !IsSchemeChar(s[start - 1])
    ensures RunStart(s, end) == start
  {
    if start < end {
      RunStartUnique(s, end - 1, start);
    }
  }

  lemma {:induction false} AuthorityLenUnique(s: string, n: nat)
    requires n <= |s| && IsAuthority(s[..n])
    requires n < |s| ==> IsDelimiter(s[n])
    ensures AuthorityLen(s) == n
  {
    if n > 0 {
      assert s[0] == s[..n][0] && s[1..][..n - 1] == s[..n][1..];
      AuthorityLenUnique(s[1..], n - 1);
    }
  }

  /** Text in which the first `://` follows a scheme that begins right after a plain stretch. */
  lemma FirstSepOfLink(s: string, text: string, scheme: string, after: string)
    requires BeforeLink(text) && IsScheme(scheme) && s == text + scheme + "://" + after
    ensures FindSep(s) == Some(|text| + |scheme|) && SchemeStart(s, |text| + |scheme|) == |text|
  {
    var start, sep := |text|, |text| + |scheme|;
    assert forall i :: 0 <= i < start ==> s[i] == text[i];
    assert forall i :: start <= i < sep ==> s[i] == scheme[i - start];
    FindSepExactly(text, None);
    forall i | 0 <= i < sep
      ensures !SepAt(s, i)
    {
      if i + 3 <= start {
        assert SepAt(s, i) ==> SepAt(text, i);
      } else if i < start {
        assert IsLetter(s[start]);
      } else {
        assert IsSchemeChar(s[i]);
      }
    }
    FindSepExactly(s, Some(sep));
    RunStartUnique(s, sep, start);
  }

  lemma SegmentsPlain(text: string)
    requires FindSep(text) == None
    ensures Segments(text) == [Plain(text)]
  {
  }

  lemma SegmentsUnfold(s: string, sep: nat, start: nat)
    requires FindSep(s) == Some(sep) && SchemeStart(s, sep) == start
    ensures Segments(s)
         == if start == sep then [Plain(s[..sep + 3])] + Segments(s[sep + 3..])
            else [Plain(s[..start]), Link(s[start..sep], AuthorityAt(s, sep))] + Segments(s[AuthorityEnd(s, sep)..])
  {
  }

  lemma LinkPieces(s: string, text: string, link: Segment, rest: string)
    requires link.Link? && s == text + SegmentText(link) + rest
    ensures s == text + link.scheme + "://" + (link.authority + rest)
    ensures s[..|text|] == text && s[|text|..|text| + |link.scheme|] == link.scheme
    ensures SepAt(s, |text| + |link.scheme|)
    ensures s[|text| + |link.scheme| + 3..] == link.authority + rest
    ensures s[|text| + |link.scheme| + 3 + |link.authority|..] == rest
  {
  }

  lemma AuthorityOf(s: string, sep: nat, authority: string, rest: string)
    requires SepAt(s, sep) && s[sep + 3..] == authority + rest
    requires IsAuthority(authority) && (rest != [] ==> IsDelimiter(rest[0]))
    ensures AuthorityAt(s, sep) == authority && AuthorityEnd(s, sep) == sep + 3 + |authority|
  {
    AuthorityLenUnique(authority + rest, |authority|);
  }

  /** A link rendered after a plain stretch is the first thing found, whole. */
  lemma SegmentsOfLink(s: string, text: string, link: Segment, rest: string)
    requires BeforeLink(text) && IsLink(link) && (rest != [] ==> IsDelimiter(rest[0]))
    requires s == text + SegmentText(link) + rest
    ensures Segments(s) == [Plain(text), link] + Segments(rest)
  {
    hide RunStart, FindSepFrom, AuthorityLen, FindSep, SchemeStart, AuthorityEnd, AuthorityAt, Segments, SegmentText;
    var sep := |text| + |link.scheme|;
    LinkPieces(s, text, link, rest);
    FirstSepOfLink(s, text, link.scheme, link.authority + rest);
    AuthorityOf(s, sep, link.authority, rest);
    SegmentsUnfold(s, sep, |text|);
  }

  lemma SegmentsOfBareSep(s: string, text: string, rest: string)
    requires EndsInBareSep(text) && s == text + rest
    ensures Segments(s) == [Plain(text)] + Segments(rest)
  {
    var sep := |text| - 3;
    FindSepExactly(text, Some(sep));
    assert forall i :: 0 <= i < sep && SepAt(s, i) ==> SepAt(text, i);
    FindSepExactly(s, Some(sep));
    RunStartIsRun(text, sep);
    RunStartUnique(s, sep, RunStart(text, sep));
    SegmentsUnfold(s, sep, sep);
    assert s[..sep + 3] == text && s[sep + 3..] == rest;
  }

  lemma ClosedRender(segments: seq<Segment>)
    requires ClosesAuthority(segments)
    ensures Render(segments) != [] ==> IsDelimiter(Render(segments)[0])
  {
  }

  /** Segmenting what a well-formed list renders gives that list back. */
  lemma {:induction false} SegmentsRender(segments: seq<Segment>)
    requires WellSegmented(segments)
    ensures Segments(Render(segments)) == segments
    decreases |segments|
  {
    hide Segments, Render, SegmentText, FindSepFrom, RunStart;
    var text := segments[0].text;
    if |segments| == 1 {
      assert segments == [Plain(text)];
      RenderPlain(text);
      SegmentsPlain(text);
    } else if segments[1].Link? {
      var rest := segments[2..];
      SegmentsRender(rest);
      ClosedRender(rest);
      assert segments == [Plain(text), segments[1]] + rest;
      RenderTwo(Plain(text), segments[1], rest);
      PlainText(text);
      SegmentsOfLink(Render(segments), text, segments[1], Render(rest));
    } else {
      var rest := segments[1..];
      SegmentsRender(rest);
      assert segments == [Plain(text)] + rest;
      RenderCons(Plain(text), rest);
      PlainText(text);
      SegmentsOfBareSep(Render(segments), text, Render(rest));
    }
  }

  lemma BareSepText(s: string, sep: nat)
    requires FindSep(s) == Some(sep) && SchemeStart(s, sep) == sep
    ensures EndsInBareSep(s[..sep + 3])
  {
    var text := s[..sep + 3];
    FindSepExactly(s, Some(sep));
    assert forall i :: 0 <= i < sep && SepAt(text, i) ==> SepAt(s, i);
    FindSepExactly(text, Some(sep));
    RunStartIsRun(s, sep);
    RunStartUnique(text, sep, RunStart(s, sep));
  }

  lemma LinkParts(s: string, sep: nat)
    requires FindSep(s) == Some(sep) && SchemeStart(s, sep) != sep
    ensures var start := SchemeStart(s, sep);
            BeforeLink(s[..start]) && IsLink(Link(s[start..sep], AuthorityAt(s, sep)))
  {
    var start := SchemeStart(s, sep);
    FindSepExactly(s, Some(sep));
    assert forall i :: 0 <= i < start && SepAt(s[..start], i) ==> SepAt(s, i);
    FindSepExactly(s[..start], None);
    RunStartIsRun(s, sep);
    var scheme := s[start..sep];
    assert forall i :: 0 <= i < |scheme| ==> scheme[i] == s[start + i];
    AuthorityLenClean(s[sep + 3..]);
  }

  /** The segmentation of any text is such a list, so it is the only one that renders to the
      text. */
  lemma {:induction false} SegmentsWellSegmented(s: string)
    ensures WellSegmented(Segments(s))
    ensures (s != [] ==> IsDelimiter(s[0])) ==> ClosesAuthority(Segments(s))
    decreases |s|
  {
    if FindSep(s).Some? {
      var sep := FindSep(s).value;
      var start := SchemeStart(s, sep);
      SegmentsUnfold(s, sep, start);
      if start == sep {
        SegmentsWellSegmented(s[sep + 3..]);
        BareSepText(s, sep);
        BareSepFirst(s[..sep + 3], Segments(s[sep + 3..]));
      } else {
        SegmentsWellSegmented(s[AuthorityEnd(s, sep)..]);
        LinkParts(s, sep);
        LinkFirst(s[..start], Link(s[start..sep], AuthorityAt(s, sep)), Segments(s[AuthorityEnd(s, sep)..]));
      }
    }
  }

  lemma BareSepFirst(text: string, rest: seq<Segment>)
    requires EndsInBareSep(text) && WellSegmented(rest)
    ensures WellSegmented([Plain(text)] + rest)
    ensures IsDelimiter(text[0]) ==> ClosesAuthority([Plain(text)] + rest)
  {
  }

  lemma LinkFirst(text: string, link: Segment, rest: seq<Segment>)
    requires BeforeLink(text) && IsLink(link) && ClosesAuthority(rest) && WellSegmented(rest)
    ensures WellSegmented([Plain(text), link] + rest)
    ensures text != [] && IsDelimiter(text[0]) ==> ClosesAuthority([Plain(text), link] + rest)
  {
  }

  // ---------- the swap ----------

  /** What every rewritten link points at: a scheme and an authority, as the configuration
      demands of `external_base_url`. */
  datatype Base = Base(scheme: string, authority: string)

  ghost predicate ValidBase(base: Base) {
    IsScheme(base.scheme) && IsAuthority(base.authority)
  }

  function BaseText(base: Base): string {
    base.scheme + "://" + base.authority
  }

  function SwapSegment(base: Base, wanted: string -> bool, segment: Segment): Segment {
    if segment.Link? && wanted(segment.authority) then Link(base.scheme, base.authority) else segment
  }

  function SwapAll(base: Base, wanted: string -> bool, segments: seq<Segment>): (swapped: seq<Segment>)
    ensures |swapped| == |segments|
    ensures forall i :: 0 <= i < |segments| ==> swapped[i] == SwapSegment(base, wanted, segments[i])
  {
    seq(|segments|, i requires 0 <= i < |segments| => SwapSegment(base, wanted, segments[i]))
  }

  /** The segments put together with each link that `wanted` accepts replaced. */
  function Substitute(replacement: string, wanted: string -> bool, segments: seq<Segment>): string {
    if segments == [] then ""
    else
      (if segments[0].Link? && wanted(segments[0].authority) then replacement else SegmentText(segments[0]))
      + Substitute(replacement, wanted, segments[1..])
  }

  /** What `swap_authorities` makes of a text, for any replacement. */
  function SwapTo(replacement: string, wanted: string -> bool, text: string): string {
    Substitute(replacement, wanted, Segments(text))
  }

  /** The text with every link that `wanted` accepts repointed at the base. */
  function Swap(base: Base, wanted: string -> bool, text: string): string {
    SwapTo(BaseText(base), wanted, text)
  }

  lemma {:induction false} SubstituteRenders(base: Base, wanted: string -> bool, segments: seq<Segment>)
    ensures Substitute(BaseText(base), wanted, segments) == Render(SwapAll(base, wanted, segments))
  {
    if segments != [] {
      SubstituteRenders(base, wanted, segments[1..]);
      assert SwapAll(base, wanted, segments)[1..] == SwapAll(base, wanted, segments[1..]);
    }
  }

  lemma {:induction false} SwapWellSegmented(base: Base, wanted: string -> bool, segments: seq<Segment>)
    requires ValidBase(base) && WellSegmented(segments)
    ensures WellSegmented(SwapAll(base, wanted, segments))
    decreases |segments|
  {
    var swapped := SwapAll(base, wanted, segments);
    if |segments| > 1 {
      var next := if segments[1].Link? then 2 else 1;
      SwapWellSegmented(base, wanted, segments[next..]);
      assert swapped[next..] == SwapAll(base, wanted, segments[next..]);
    }
  }

  /** The output of a swap segments into exactly the swapped segments of the input. */
  lemma SwapSegments(base: Base, wanted: string -> bool, text: string)
    requires ValidBase(base)
    ensures Segments(Swap(base, wanted, text)) == SwapAll(base, wanted, Segments(text))
  {
    SegmentsWellSegmented(text);
    SwapWellSegmented(base, wanted, Segments(text));
    SegmentsRender(SwapAll(base, wanted, Segments(text)));
    SubstituteRenders(base, wanted, Segments(text));
  }

  /** Swapping twice is swapping once. */
  lemma SwapIdempotent(base: Base, wanted: string -> bool, text: string)
    requires ValidBase(base)
    ensures Swap(base, wanted, Swap(base, wanted, text)) == Swap(base, wanted, text)
  {
    SwapSegments(base, wanted, text);
    var once := SwapAll(base, wanted, Segments(text));
    assert SwapAll(base, wanted, once) == once;
    SubstituteRenders(base, wanted, once);
    SubstituteRenders(base, wanted, Segments(text));
  }

  /** No link of the output is wanted any more, unless it is the base itself. */
  lemma SwapLeavesNone(base: Base, wanted: string -> bool, text: string, link: Segment)
    requires ValidBase(base)
    requires link in Segments(Swap(base, wanted, text)) && link.Link? && wanted(link.authority)
    ensures link == Link(base.scheme, base.authority)
  {
    SwapSegments(base, wanted, text);
  }

  lemma {:induction false} SubstituteUnwanted(replacement: string, wanted: string -> bool, segments: seq<Segment>)
    requires forall link :: link in segments && link.Link? ==> !wanted(link.authority)
    ensures Substitute(replacement, wanted, segments) == Render(segments)
  {
    if segments != [] {
      assert segments[0] in segments;
      SubstituteUnwanted(replacement, wanted, segments[1..]);
    }
  }

  /** A predicate that accepts none of the text's links gives the text back. */
  lemma SwapUnwanted(replacement: string, wanted: string -> bool, text: string)
    requires forall link :: link in Segments(text) && link.Link? ==> !wanted(link.authority)
    ensures SwapTo(replacement, wanted, text) == text
  {
    RenderSegments(text);
    SubstituteUnwanted(replacement, wanted, Segments(text));
  }

  /** A text without `://` has no link, so the source's fast path never changes an answer. */
  lemma SwapWithoutSep(replacement: string, wanted: string -> bool, text: string)
    requires FindSep(text) == None
    ensures SwapTo(replacement, wanted, text) == text
  {
    SwapUnwanted(replacement, wanted, text);
  }

  lemma SubstituteTwo(replacement: string, wanted: string -> bool, text: Segment, link: Segment, rest: seq<Segment>)
    requires text.Plain? && link.Link?
    ensures Substitute(replacement, wanted, [text, link] + rest)
         == text.text + (if wanted(link.authority) then replacement else SegmentText(link))
            + Substitute(replacement, wanted, rest)
  {
  }

  // ---------- the scanner ----------

  /** A place the look-back for a scheme cannot cross. */
  ghost predicate Boundary(text: string, cursor: nat) {
    || cursor == 0
    || cursor >= |text|
    || IsDelimiter(text[cursor])
    || !IsSchemeChar(text[cursor - 1])
  }

  /** Looking back from a separator in the whole text finds what looking back in the unread part
      finds, and so never goes behind the cursor. */
  lemma LookBackStops(text: string, cursor: nat, sep: nat)
    requires cursor <= sep <= |text| && Boundary(text, cursor) && SepAt(text, sep)
    ensures SchemeStart(text, sep) == cursor + SchemeStart(text[cursor..], sep - cursor)
  {
    var unread := text[cursor..];
    var start := RunStart(unread, sep - cursor);
    RunStartIsRun(unread, sep - cursor);
    assert forall i :: cursor + start <= i < sep ==> text[i] == unread[i - cursor];
    if start > 0 {
      assert text[cursor + start - 1] == unread[start - 1];
    } else {
      assert cursor < sep ==> IsSchemeChar(unread[0]) && unread[0] == text[cursor];
    }
    RunStartUnique(text, sep, cursor + start);
  }

  /** `scheme_start`: walks back from the separator while the characters fit a scheme. */
  method FindSchemeStart(text: string, sep: nat) returns (start: nat)
    requires sep <= |text|
    ensures start == SchemeStart(text, sep)
  {
    start := sep;
    while start > 0 && IsSchemeChar(text[start - 1])
      invariant start <= sep
      invariant RunStart(text, sep) == RunStart(text, start)
    {
      start := start - 1;
    }
    if start == sep || !IsLetter(text[start]) {
      start := sep;
    }
  }

  lemma SwapBareSep(replacement: string, wanted: string -> bool, s: string, sep: nat)
    requires FindSep(s) == Some(sep) && SchemeStart(s, sep) == sep
    ensures SwapTo(replacement, wanted, s) == s[..sep + 3] + SwapTo(replacement, wanted, s[sep + 3..])
  {
  }

  lemma SwapLink(replacement: string, wanted: string -> bool, s: string, sep: nat, start: nat)
    requires FindSep(s) == Some(sep) && SchemeStart(s, sep) == start != sep
    ensures var end := AuthorityEnd(s, sep);
            SwapTo(replacement, wanted, s)
            == s[..start] + (if wanted(AuthorityAt(s, sep)) then replacement else s[start..end])
               + SwapTo(replacement, wanted, s[end..])
  {
    hide FindSepFrom, RunStart, AuthorityLen, AuthorityAt, AuthorityEnd;
    var text, link := Plain(s[..start]), Link(s[start..sep], AuthorityAt(s, sep));
    var rest := Segments(s[AuthorityEnd(s, sep)..]);
    SegmentsUnfold(s, sep, start);
    LinkSlices(s, sep, start);
    SubstituteTwo(replacement, wanted, text, link, rest);
  }

  /** Positions in the unread part are positions in the text, moved by the cursor. */
  lemma Unread(text: string, cursor: nat, sep: nat)
    requires cursor <= |text| && SepAt(text[cursor..], sep)
    ensures SepAt(text, cursor + sep)
    ensures AuthorityAt(text, cursor + sep) == AuthorityAt(text[cursor..], sep)
    ensures AuthorityEnd(text, cursor + sep) == cursor + AuthorityEnd(text[cursor..], sep)
  {
  }

  lemma SliceUnread(text: string, cursor: nat, from: nat, to: nat)
    requires cursor <= from <= to <= |text|
    ensures text[cursor..][from - cursor..to - cursor] == text[from..to]
    ensures text[cursor..][to - cursor..] == text[to..]
  {
  }

  /** One turn of the scan with no scheme before the separator. */
  lemma ScanBareSep(replacement: string, wanted: string -> bool, text: string, cursor: nat, sep: nat)
    requires cursor <= sep && cursor <= |text| && Boundary(text, cursor)
    requires FindSep(text[cursor..]) == Some(sep - cursor) && SepAt(text, sep) && SchemeStart(text, sep) == sep
    ensures Boundary(text, sep + 3)
    ensures SwapTo(replacement, wanted, text[cursor..])
         == text[cursor..sep + 3] + SwapTo(replacement, wanted, text[sep + 3..])
  {
    hide SwapTo;
    LookBackStops(text, cursor, sep);
    SwapBareSep(replacement, wanted, text[cursor..], sep - cursor);
    SliceUnread(text, cursor, cursor, sep + 3);
  }

  /** One turn of the scan over a link. */
  lemma ScanLink(replacement: string, wanted: string -> bool, text: string, cursor: nat, sep: nat, start: nat)
    requires cursor <= sep && cursor <= |text| && Boundary(text, cursor)
    requires FindSep(text[cursor..]) == Some(sep - cursor) && SepAt(text, sep)
    requires SchemeStart(text, sep) == start != sep
    ensures cursor <= start
    ensures var end := AuthorityEnd(text, sep);
            && Boundary(text, end)
            && SwapTo(replacement, wanted, text[cursor..])
               == text[cursor..start]
                  + (if wanted(AuthorityAt(text, sep)) then replacement else text[start..end])
                  + SwapTo(replacement, wanted, text[end..])
  {
    hide SwapTo, SchemeStart, FindSep, AuthorityAt, AuthorityEnd, RunStart;
    LookBackStops(text, cursor, sep);
    Unread(text, cursor, sep - cursor);
    SwapLink(replacement, wanted, text[cursor..], sep - cursor, start - cursor);
    SliceUnread(text, cursor, cursor, start);
    SliceUnread(text, cursor, start, AuthorityEnd(text, sep));
  }

  lemma Regroup(out: string, head: string, link: string, rest: string)
    ensures out + (head + link + rest) == out + head + link + rest
    ensures out + (head + rest) == out + head + rest
  {
  }

  /** `swap_authorities`. Every slice is in range because the look-back never crosses the cursor,
      and the cursor moves on every turn. */
  method SwapAuthorities(replacement: string, text: string, wanted: string -> bool) returns (out: string)
    ensures out == SwapTo(replacement, wanted, text)
  {
    hide SwapTo;
    out := "";
    var cursor := 0;
    assert text[0..] == text;
    var found := FindSep(text[cursor..]);
    while found.Some?
      invariant cursor <= |text| && Boundary(text, cursor)
      invariant found == FindSep(text[cursor..])
      invariant out + SwapTo(replacement, wanted, text[cursor..]) == SwapTo(replacement, wanted, text)
      decreases |text| - cursor
    {
      Unread(text, cursor, found.value);
      var sep := cursor + found.value;
      var start := FindSchemeStart(text, sep);
      if start == sep {
        ScanBareSep(replacement, wanted, text, cursor, sep);
        Regroup(out, text[cursor..sep + 3], "", SwapTo(replacement, wanted, text[sep + 3..]));
        out := out + text[cursor..sep + 3];
        cursor := sep + 3;
      } else {
        ScanLink(replacement, wanted, text, cursor, sep, start);
        var end := AuthorityEnd(text, sep);
        ghost var before, rest := out, SwapTo(replacement, wanted, text[end..]);
        out := out + text[cursor..start];
        if wanted(AuthorityAt(text, sep)) {
          out := out + replacement;
          Regroup(before, text[cursor..start], replacement, rest);
        } else {
          out := out + text[start..end];
          Regroup(before, text[cursor..start], text[start..end], rest);
        }
        cursor := end;
      }
      found := FindSep(text[cursor..]);
    }
    SwapWithoutSep(replacement, wanted, text[cursor..]);
    out := out + text[cursor..];
  }

  // ---------- which authorities name the target ----------

  function LastColon(s: string): (at: Option<nat>)
    ensures at.None? ==> Free(s, ':')
    ensures at.Some? ==> at.value < |s| && s[at.value] == ':' && Free(s[at.value + 1..], ':')
  {
    if s == [] then None
    else if s[|s| - 1] == ':' then Some(|s| - 1)
    else
      var at := LastColon(s[..|s| - 1]);
      assert at.Some? ==> s[at.value + 1..] == s[..|s| - 1][at.value + 1..] + [s[|s| - 1]];
      at
  }

  /** The authority without a numeric port. */
  function HostOf(authority: string): string {
    match LastColon(authority)
    case Some(i) =>
      if i + 1 < |authority| && AllDigits(authority[i + 1..]) then authority[..i] else authority
    case None => authority
  }

  predicate IsTarget(authority: string, ip: string) {
    EqIgnoreCase(HostOf(authority), ip)
  }

  /** The predicate the rewriter passes for a target address. */
  function NamesTarget(ip: string): string -> bool {
    (authority: string) => IsTarget(authority, ip)
  }

  /** `authority` is `host` followed by a colon and a port number. */
  ghost predicate WithPort(authority: string, host: string, port: string) {
    authority == host + ":" + port && port != [] && AllDigits(port)
  }

  /** An authority names the target exactly when it is the address, with or without a port. */
  lemma IsTargetExactly(authority: string, ip: string)
    requires Free(ip, ':')
    ensures NamesTarget(ip)(authority)
       <==> || EqIgnoreCase(authority, ip)
            || exists host, port :: WithPort(authority, host, port) && EqIgnoreCase(host, ip)
  {
    hide EqIgnoreCase, HostOf, WithPort, Free;
    if EqIgnoreCase(authority, ip) {
      NoColon(authority, ip);
      HostOfPlain(authority);
    }
    forall host, port | WithPort(authority, host, port) && EqIgnoreCase(host, ip)
      ensures HostOf(authority) == host
    {
      NoColon(host, ip);
      HostOfPort(authority, host, port);
    }
    HostOfParts(authority);
  }

  lemma HostOfPlain(authority: string)
    requires Free(authority, ':')
    ensures HostOf(authority) == authority
  {
  }

  lemma HostOfParts(authority: string)
    ensures HostOf(authority) == authority || exists port :: WithPort(authority, HostOf(authority), port)
  {
    hide LastColon;
    if HostOf(authority) != authority {
      var i := LastColon(authority).value;
      CutAt(authority, i);
      assert WithPort(authority, authority[..i], authority[i + 1..]);
    }
  }

  lemma CutAt(s: string, i: nat)
    requires i < |s| && s[i] == ':'
    ensures s == s[..i] + ":" + s[i + 1..]
  {
  }

  lemma {:induction false} LastColonUnique(s: string, at: nat)
    requires at < |s| && s[at] == ':' && Free(s[at + 1..], ':')
    ensures LastColon(s) == Some(at)
  {
  }

  lemma HostOfPort(authority: string, host: string, port: string)
    requires Free(host, ':') && WithPort(authority, host, port)
    ensures HostOf(authority) == host
  {
    hide LastColon;
    assert authority[|host|] == ':';
    assert authority[|host| + 1..] == port && authority[..|host|] == host;
    LastColonUnique(authority, |host|);
  }

  lemma NoColon(host: string, ip: string)
    requires EqIgnoreCase(host, ip) && Free(ip, ':')
    ensures Free(host, ':')
  {
  }
}
