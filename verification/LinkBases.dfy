/** What a base must look like for the rewriter to be repeatable. The configuration asks for a scheme,
    a host and a port, but checks only the path of `external_base_url`, so a query or a fragment may
    follow the authority: the replacement is then the base and a tail. */
module LinkBases {
  import opened Wrappers
  import opened Text
  import opened Links

  /** Trimming the slashes a URL's text ends in leaves the base, if the URL has no more than a root
      path; a URL without an authority, such as `file:///`, loses its separator too. */
  lemma TrimmedUrlIsBase(base: Base, slashes: nat)
    requires ValidBase(base)
    ensures TrimSlashes(BaseText(base) + seq(slashes, _ => '/'))
         == if base.authority != "" then BaseText(base) else base.scheme + ":"
  {
    var text := BaseText(base);
    if base.authority != "" {
      assert text[|text| - 1] == base.authority[|base.authority| - 1];
      TrimSlashesAll(text, slashes);
    } else {
      TrimSlashesAll(base.scheme + ":", slashes + 2);
      assert text + seq(slashes, _ => '/') == base.scheme + ":" + seq(slashes + 2, _ => '/');
    }
  }

  // ---------- texts put side by side ----------

  /** What may follow an authority in a text, and so what may follow the authority of a base. */
  predicate Closing(s: string) {
    s != "" ==> IsDelimiter(s[0])
  }

  ghost predicate NoneWanted(wanted: string -> bool, s: string) {
    forall link :: link in Segments(s) && link.Link? ==> !wanted(link.authority)
  }

  /** The text after the last link or bare `://`. */
  function Ending(s: string): string {
    var segments := Segments(s);
    SegmentText(segments[|segments| - 1])
  }

  /** The text ends in a scheme and the first `gap` characters of `://`, so that the rest of it could
      follow. */
  predicate EndsInScheme(t: string, gap: nat)
    requires gap <= 3
  {
    |t| >= gap && t[|t| - gap..] == "://"[..gap] && SchemeStart(t, |t| - gap) < |t| - gap
  }

  predicate EndsOpen(t: string) {
    EndsInScheme(t, 1) || EndsInScheme(t, 2)
  }

  /** A stretch in front that holds no separator and is not part of a scheme only lengthens the first
      plain segment. */
  lemma SegmentsPrefix(t: string, s: string)
    requires NoSepBefore(t + s, |t|) && Boundary(t + s, |t|)
    ensures Segments(s)[0].Plain?
    ensures Segments(t + s) == [Plain(t + Segments(s)[0].text)] + Segments(s)[1..]
  {
    hide *;
    var whole := t + s;
    FindSepPrefix(t, s);
    match FindSep(s) {
      case None =>
        SegmentsPlain(s);
        SegmentsPlain(whole);
      case Some(sep) =>
        assert whole[|t|..] == s;
        Unread(whole, |t|, sep);
        LookBackStops(whole, |t|, |t| + sep);
        PrefixedSegments(t, s, whole, sep, SchemeStart(s, sep));
    }
  }

  lemma FindSepPrefix(t: string, s: string)
    requires NoSepBefore(t + s, |t|)
    ensures match FindSep(s)
            case None => FindSep(t + s) == None
            case Some(sep) => FindSep(t + s) == Some(|t| + sep)
  {
    hide FindSep;
    var whole := t + s;
    assert forall i :: |t| <= i && SepAt(whole, i) ==> SepAt(s, i - |t|);
    FindSepExactly(s, FindSep(s));
    match FindSep(s) {
      case None => FindSepExactly(whole, None);
      case Some(sep) => FindSepExactly(whole, Some(|t| + sep));
    }
  }

  lemma PrefixedSegments(t: string, s: string, whole: string, sep: nat, start: nat)
    requires whole == t + s
    requires FindSep(s) == Some(sep) && SchemeStart(s, sep) == start
    requires FindSep(whole) == Some(|t| + sep) && SchemeStart(whole, |t| + sep) == |t| + start
    requires AuthorityAt(whole, |t| + sep) == AuthorityAt(s, sep)
    requires AuthorityEnd(whole, |t| + sep) == |t| + AuthorityEnd(s, sep)
    ensures Segments(s)[0].Plain?
    ensures Segments(whole) == [Plain(t + Segments(s)[0].text)] + Segments(s)[1..]
  {
    hide *;
    SegmentsUnfold(s, sep, start);
    SegmentsUnfold(whole, |t| + sep, |t| + start);
    if start == sep {
      SlicesPrefixed(t, s, whole, 0, sep + 3);
      Lengthened(t, s[..sep + 3], Segments(s[sep + 3..]));
    } else {
      PrefixedLink(t, s, whole, sep, start, AuthorityEnd(s, sep));
      var link := Link(s[start..sep], AuthorityAt(s, sep));
      LengthenedLink(t, s[..start], link, Segments(s[AuthorityEnd(s, sep)..]));
    }
  }

  lemma PrefixedLink(t: string, s: string, whole: string, sep: nat, start: nat, end: nat)
    requires whole == t + s && start <= sep <= end <= |s|
    ensures whole[..|t| + start] == t + s[..start]
    ensures whole[|t| + start..|t| + sep] == s[start..sep]
    ensures whole[|t| + end..] == s[end..]
  {
    SlicesPrefixed(t, s, whole, 0, start);
    SlicesPrefixed(t, s, whole, start, sep);
    SlicesPrefixed(t, s, whole, sep, end);
  }

  lemma SlicesPrefixed(t: string, s: string, whole: string, from: nat, to: nat)
    requires whole == t + s && from <= to <= |s|
    ensures whole[..|t| + to] == t + s[..to]
    ensures whole[|t| + from..|t| + to] == s[from..to]
    ensures whole[|t| + to..] == s[to..]
  {
  }

  lemma Lengthened(t: string, text: string, rest: seq<Segment>)
    ensures ([Plain(text)] + rest)[0] == Plain(text)
    ensures [Plain(t + text)] + ([Plain(text)] + rest)[1..] == [Plain(t + text)] + rest
  {
  }

  lemma Regrouped(a: string, b: string, c: string, d: string)
    ensures a + b + c + d == a + b + (c + d)
    ensures a + (b + c) + d == a + b + (c + d)
  {
  }

  lemma LengthenedLink(t: string, text: string, link: Segment, rest: seq<Segment>)
    ensures ([Plain(text), link] + rest)[0] == Plain(text)
    ensures [Plain(t + text)] + ([Plain(text), link] + rest)[1..] == [Plain(t + text), link] + rest
  {
  }

  /** A separator that straddles the seam, with no scheme before it. */
  lemma StraddlingSep(t: string, gap: nat)
    requires 1 <= gap <= 2 && FindSep(t) == None
    requires |t| >= gap && t[|t| - gap..] == "://"[..gap] && !EndsInScheme(t, gap)
    ensures EndsInBareSep(t + "://"[gap..])
  {
    var text, sep := t + "://"[gap..], |t| - gap;
    FindSepExactly(t, None);
    assert t[sep] == t[sep..][0] == ':';
    assert gap == 2 ==> t[sep + 1] == t[sep..][1] == '/';
    forall i | 0 <= i < sep
      ensures !SepAt(text, i)
    {
      assert i + 3 <= |t| ==> (SepAt(text, i) ==> SepAt(t, i));
    }
    FindSepExactly(text, Some(sep));
    RunStartIsRun(t, sep);
    RunStartUnique(text, sep, RunStart(t, sep));
  }

  predicate Straddles(t: string, r: string, gap: nat)
    requires gap <= 3
  {
    |t| >= gap && t[|t| - gap..] == "://"[..gap] && "://"[gap..] <= r
  }

  lemma JoinStraddling(t: string, r: string, gap: nat, wanted: string -> bool)
    requires 1 <= gap <= 2 && FindSep(t) == None && Straddles(t, r, gap) && !EndsInScheme(t, gap)
    requires NoneWanted(wanted, r)
    ensures NoneWanted(wanted, t + r)
  {
    var slashes := "://"[gap..];
    var after := r[|slashes|..];
    assert forall i :: 0 <= i < |slashes| ==> slashes[i] == '/';
    assert r == slashes + after && t + r == t + slashes + after;
    StraddlingSep(t, gap);
    SegmentsOfBareSep(t + r, t + slashes, after);
    assert r[|slashes| - 1] == slashes[|slashes| - 1];
    assert forall i :: 0 <= i < |slashes| ==> r[i] == slashes[i];
    SegmentsPrefix(slashes, after);
    forall link | link in Segments(t + r) && link.Link?
      ensures !wanted(link.authority)
    {
      assert link in Segments(after) && link != Segments(after)[0];
      assert link in Segments(r);
    }
  }

  lemma JoinPlain(t: string, r: string, wanted: string -> bool)
    requires FindSep(t) == None && !EndsOpen(t) && Closing(r) && NoneWanted(wanted, r)
    ensures NoneWanted(wanted, t + r)
  {
    hide Straddles, EndsInScheme, Segments, FindSep;
    if Straddles(t, r, 1) {
      JoinStraddling(t, r, 1, wanted);
    } else if Straddles(t, r, 2) {
      JoinStraddling(t, r, 2, wanted);
    } else {
      FindSepExactly(t, None);
      NoStraddle(t, r);
      SegmentsPrefix(t, r);
      SameLinks(wanted, t + r, r);
    }
  }

  lemma SameLinks(wanted: string -> bool, s: string, r: string)
    requires Segments(s)[0].Plain? && Segments(s)[1..] == Segments(r)[1..] && NoneWanted(wanted, r)
    ensures NoneWanted(wanted, s)
  {
    hide Segments;
    forall link | link in Segments(s) && link.Link?
      ensures !wanted(link.authority)
    {
      assert link in Segments(s)[1..];
      assert link in Segments(r);
    }
  }

  lemma NoStraddle(t: string, r: string)
    requires NoSepBefore(t, |t|) && !Straddles(t, r, 1) && !Straddles(t, r, 2)
    ensures NoSepBefore(t + r, |t|)
  {
    var whole := t + r;
    forall i | 0 <= i < |t|
      ensures !SepAt(whole, i)
    {
      if i + 3 <= |t| {
        assert SepAt(whole, i) ==> SepAt(t, i);
      } else {
        SepOverSeam(t, r, i);
      }
    }
  }

  lemma SepOverSeam(t: string, r: string, at: nat)
    requires at < |t| < at + 3
    ensures SepAt(t + r, at) ==> Straddles(t, r, |t| - at)
  {
    var gap := |t| - at;
    if SepAt(t + r, at) {
      assert forall i :: 0 <= i < gap ==> t[at..][i] == (t + r)[at + i] == "://"[i];
      assert forall i :: 0 <= i < 3 - gap ==> r[i] == (t + r)[|t| + i] == "://"[gap..][i];
      assert t[at..] == "://"[..gap];
      assert r[..3 - gap] == "://"[gap..];
    }
  }

  lemma EndingOfRest(head: seq<Segment>, s: string, rest: string)
    requires Segments(s) == head + Segments(rest)
    ensures Ending(s) == Ending(rest)
  {
    hide Segments, SegmentText;
  }

  lemma EndingPlain(s: string)
    requires FindSep(s) == None
    ensures Ending(s) == s
  {
    SegmentsPlain(s);
  }

  lemma NoneWantedParts(wanted: string -> bool, s: string, head: seq<Segment>, rest: string)
    requires Segments(s) == head + Segments(rest)
    ensures NoneWanted(wanted, s)
       <==> NoneWanted(wanted, rest) && forall link :: link in head && link.Link? ==> !wanted(link.authority)
  {
    hide Segments;
    assert forall segment :: segment in Segments(s) <==> segment in head || segment in Segments(rest);
  }

  /** The segments up to the first link or bare `://` stay what they are when the text grows. */
  lemma FirstLink(s: string, r: string) returns (head: seq<Segment>, rest: string)
    requires FindSep(s).Some? && Closing(r)
    ensures |rest| < |s|
    ensures Segments(s) == head + Segments(rest)
    ensures Segments(s + r) == head + Segments(rest + r)
  {
    hide FindSep, SchemeStart, AuthorityAt, AuthorityEnd, Segments;
    var sep := FindSep(s).value;
    var start := SchemeStart(s, sep);
    SegmentsUnfold(s, sep, start);
    if start == sep {
      head, rest := [Plain(s[..sep + 3])], s[sep + 3..];
      BareSepGrows(s, sep, s[..sep + 3], rest, r);
    } else {
      var link := Link(s[start..sep], AuthorityAt(s, sep));
      head, rest := [Plain(s[..start]), link], s[AuthorityEnd(s, sep)..];
      LinkGrows(s, sep, s[..start], link, rest, r);
    }
  }

  lemma BareSepGrows(s: string, sep: nat, text: string, rest: string, r: string)
    requires FindSep(s) == Some(sep) && SchemeStart(s, sep) == sep && text == s[..sep + 3] && rest == s[sep + 3..]
    ensures Segments(s + r) == [Plain(text)] + Segments(rest + r)
  {
    hide FindSep, SchemeStart, Segments, EndsInBareSep;
    BareSepText(s, sep);
    assert s + r == text + (rest + r);
    SegmentsOfBareSep(s + r, text, rest + r);
  }

  lemma LinkGrows(s: string, sep: nat, text: string, link: Segment, rest: string, r: string)
    requires FindSep(s) == Some(sep) && SchemeStart(s, sep) != sep && Closing(r)
    requires var start := SchemeStart(s, sep); text == s[..start] && link == Link(s[start..sep], AuthorityAt(s, sep))
    requires rest == s[AuthorityEnd(s, sep)..]
    ensures Segments(s + r) == [Plain(text), link] + Segments(rest + r)
  {
    hide FindSep, SchemeStart, AuthorityAt, AuthorityEnd, Segments, SegmentText, BeforeLink, IsLink;
    LinkParts(s, sep);
    LinkSlices(s, sep, |text|);
    Regrouped(text, SegmentText(link), rest, r);
    assert rest + r != "" ==> IsDelimiter((rest + r)[0]);
    SegmentsOfLink(s + r, text, link, rest + r);
  }

  /** Two texts without wanted links make one without, if the first does not end open and the second
      cannot lengthen an authority. */
  lemma {:induction false} JoinSafe(s: string, r: string, wanted: string -> bool)
    requires NoneWanted(wanted, s) && !EndsOpen(Ending(s)) && Closing(r) && NoneWanted(wanted, r)
    ensures NoneWanted(wanted, s + r)
    decreases |s|
  {
    hide EndsOpen, Closing, FindSep, Segments, Ending, NoneWanted;
    if FindSep(s) == None {
      EndingPlain(s);
      JoinPlain(s, r, wanted);
    } else {
      var head, rest := FirstLink(s, r);
      EndingOfRest(head, s, rest);
      NoneWantedParts(wanted, s, head, rest);
      JoinSafe(rest, r, wanted);
      NoneWantedParts(wanted, s + r, head, rest + r);
    }
  }

  // ---------- swapping with a base and a tail ----------

  lemma SwapCloses(replacement: string, wanted: string -> bool, s: string)
    requires Closing(s)
    ensures Closing(SwapTo(replacement, wanted, s))
  {
    SegmentsWellSegmented(s);
    ClosedSubstitute(replacement, wanted, Segments(s));
  }

  lemma ClosedSubstitute(replacement: string, wanted: string -> bool, segments: seq<Segment>)
    requires ClosesAuthority(segments)
    ensures Closing(Substitute(replacement, wanted, segments))
  {
  }

  /** The parts of a text around its first link, put back with that link replaced. */
  lemma SwapFirstLink(base: Base, tail: string, wanted: string -> bool, s: string, sep: nat, start: nat)
    requires FindSep(s) == Some(sep) && SchemeStart(s, sep) == start != sep
    ensures var rest := SwapTo(BaseText(base) + tail, wanted, s[AuthorityEnd(s, sep)..]);
            var link := Link(s[start..sep], AuthorityAt(s, sep));
            SwapTo(BaseText(base) + tail, wanted, s)
            == if wanted(link.authority)
               then s[..start] + SegmentText(Link(base.scheme, base.authority)) + (tail + rest)
               else s[..start] + SegmentText(link) + rest
  {
    hide SwapTo, FindSep, SchemeStart, AuthorityAt, AuthorityEnd;
    SwapLink(BaseText(base) + tail, wanted, s, sep, start);
    LinkSlices(s, sep, start);
    var rest := SwapTo(BaseText(base) + tail, wanted, s[AuthorityEnd(s, sep)..]);
    Regrouped(s[..start], BaseText(base), tail, rest);
  }

  /** With a tail that neither holds nor opens a wanted link, a swap leaves none. */
  lemma {:induction false} SwapLeavesNoneWanted(base: Base, tail: string, wanted: string -> bool, s: string)
    requires ValidBase(base) && !wanted(base.authority) && Closing(tail)
    requires NoneWanted(wanted, tail) && !EndsOpen(Ending(tail))
    ensures NoneWanted(wanted, SwapTo(BaseText(base) + tail, wanted, s))
    decreases |s|
  {
    hide SwapTo, EndsOpen, RunStart, FindSepFrom, AuthorityLen, Ending;
    var replacement := BaseText(base) + tail;
    match FindSep(s) {
      case None =>
        SwapWithoutSep(replacement, wanted, s);
        SegmentsPlain(s);
      case Some(sep) =>
        var start := SchemeStart(s, sep);
        if start == sep {
          var rest := SwapTo(replacement, wanted, s[sep + 3..]);
          SwapLeavesNoneWanted(base, tail, wanted, s[sep + 3..]);
          SwapBareSep(replacement, wanted, s, sep);
          BareSepText(s, sep);
          SegmentsOfBareSep(s[..sep + 3] + rest, s[..sep + 3], rest);
        } else {
          var after := s[AuthorityEnd(s, sep)..];
          SwapLeavesNoneWanted(base, tail, wanted, after);
          SwapCloses(replacement, wanted, after);
          SwapFirstLink(base, tail, wanted, s, sep, start);
          LinkParts(s, sep);
          var link, own := Link(s[start..sep], AuthorityAt(s, sep)), Link(base.scheme, base.authority);
          var rest := SwapTo(replacement, wanted, after);
          if wanted(link.authority) {
            JoinSafe(tail, rest, wanted);
            SegmentsOfLink(SwapTo(replacement, wanted, s), s[..start], own, tail + rest);
          } else {
            SegmentsOfLink(SwapTo(replacement, wanted, s), s[..start], link, rest);
          }
        }
    }
  }

  /** A swap changes any text that holds a wanted link. */
  lemma {:induction false} FixedMeansNoneWanted(base: Base, tail: string, wanted: string -> bool, s: string)
    requires ValidBase(base) && !wanted(base.authority) && Closing(tail)
    requires SwapTo(BaseText(base) + tail, wanted, s) == s
    ensures NoneWanted(wanted, s)
    decreases |s|
  {
    hide SwapTo, FindSep, SchemeStart, AuthorityAt, AuthorityEnd, Segments, BaseText, ValidBase, NoneWanted;
    var replacement := BaseText(base) + tail;
    if FindSep(s) == None {
      SegmentsPlain(s);
      NoneWantedPlain(wanted, s);
    } else {
      var sep := FindSep(s).value;
      var start := SchemeStart(s, sep);
      SegmentsUnfold(s, sep, start);
      if start == sep {
        SwapBareSep(replacement, wanted, s, sep);
        SameRest(s[..sep + 3], SwapTo(replacement, wanted, s[sep + 3..]), s[sep + 3..]);
        FixedMeansNoneWanted(base, tail, wanted, s[sep + 3..]);
        NoneWantedParts(wanted, s, [Plain(s[..sep + 3])], s[sep + 3..]);
      } else {
        FixedKeepsLink(base, tail, wanted, s, sep, start);
        var after := s[AuthorityEnd(s, sep)..];
        FixedMeansNoneWanted(base, tail, wanted, after);
        NoneWantedParts(wanted, s, [Plain(s[..start]), Link(s[start..sep], AuthorityAt(s, sep))], after);
      }
    }
  }

  lemma NoneWantedPlain(wanted: string -> bool, s: string)
    requires Segments(s) == [Plain(s)]
    ensures NoneWanted(wanted, s)
  {
    hide Segments;
  }

  /** The first link of a text that a swap leaves alone is not wanted, and the rest is left alone too. */
  lemma FixedKeepsLink(base: Base, tail: string, wanted: string -> bool, s: string, sep: nat, start: nat)
    requires ValidBase(base) && !wanted(base.authority) && Closing(tail)
    requires FindSep(s) == Some(sep) && SchemeStart(s, sep) == start != sep
    requires SwapTo(BaseText(base) + tail, wanted, s) == s
    ensures !wanted(AuthorityAt(s, sep))
    ensures var after := s[AuthorityEnd(s, sep)..]; SwapTo(BaseText(base) + tail, wanted, after) == after
  {
    hide SwapTo, FindSep, SchemeStart, AuthorityAt, AuthorityEnd, SegmentText, BaseText, BeforeLink, Closing;
    var replacement := BaseText(base) + tail;
    var after := s[AuthorityEnd(s, sep)..];
    var rest := SwapTo(replacement, wanted, after);
    var link, own := Link(s[start..sep], AuthorityAt(s, sep)), Link(base.scheme, base.authority);
    SwapFirstLink(base, tail, wanted, s, sep, start);
    LinkSlices(s, sep, start);
    if wanted(link.authority) {
      SwapKeepsClosing(replacement, tail, wanted, s, sep);
      FirstLinkIs(s, sep, start, own, tail + rest);
    } else {
      SameRest(s[..start] + SegmentText(link), rest, after);
    }
  }

  lemma SwapKeepsClosing(replacement: string, tail: string, wanted: string -> bool, s: string, sep: nat)
    requires SepAt(s, sep) && Closing(tail)
    ensures Closing(tail + SwapTo(replacement, wanted, s[AuthorityEnd(s, sep)..]))
  {
    hide SwapTo, AuthorityEnd;
    SwapCloses(replacement, wanted, s[AuthorityEnd(s, sep)..]);
  }

  /** A text has one first link. */
  lemma FirstLinkIs(s: string, sep: nat, start: nat, link: Segment, rest: string)
    requires FindSep(s) == Some(sep) && SchemeStart(s, sep) == start != sep
    requires IsLink(link) && Closing(rest) && s == s[..start] + SegmentText(link) + rest
    ensures link == Link(s[start..sep], AuthorityAt(s, sep))
  {
    hide FindSep, SchemeStart, AuthorityAt, AuthorityEnd, SegmentText, BeforeLink, IsLink, Segments;
    LinkParts(s, sep);
    SegmentsOfLink(s, s[..start], link, rest);
    SegmentsUnfold(s, sep, start);
    SecondOf(Plain(s[..start]), link, Segments(rest));
    SecondOf(Plain(s[..start]), Link(s[start..sep], AuthorityAt(s, sep)), Segments(s[AuthorityEnd(s, sep)..]));
  }

  lemma SecondOf(first: Segment, second: Segment, rest: seq<Segment>)
    ensures ([first, second] + rest)[1] == second
  {
  }

  lemma SameRest(front: string, a: string, b: string)
    requires front + a == front + b
    ensures a == b
  {
    assert (front + a)[|front|..] == a && (front + b)[|front|..] == b;
  }

  /** Swapping a text again changes nothing exactly when the first swap left no wanted link. */
  lemma RepeatsExactly(base: Base, tail: string, wanted: string -> bool, text: string)
    requires ValidBase(base) && !wanted(base.authority) && Closing(tail)
    ensures var replacement := BaseText(base) + tail;
            var once := SwapTo(replacement, wanted, text);
            SwapTo(replacement, wanted, once) == once <==> NoneWanted(wanted, once)
  {
    var replacement := BaseText(base) + tail;
    var once := SwapTo(replacement, wanted, text);
    if NoneWanted(wanted, once) {
      SwapUnwanted(replacement, wanted, once);
    }
    if SwapTo(replacement, wanted, once) == once {
      FixedMeansNoneWanted(base, tail, wanted, once);
    }
  }

  // ---------- how a tail breaks it ----------

  /** Text after an open ending completes a link to whatever authority it names. */
  lemma {:induction false} OpenEndingLinks(s: string, gap: nat, authority: string, wanted: string -> bool)
    requires 1 <= gap <= 2 && EndsInScheme(Ending(s), gap) && IsAuthority(authority) && wanted(authority)
    ensures !NoneWanted(wanted, s + ("://"[gap..] + authority))
    decreases |s|
  {
    hide FindSep, Segments, Ending, NoneWanted, EndsInScheme;
    var more := "://"[gap..] + authority;
    if FindSep(s) == None {
      EndingPlain(s);
      SchemeCompletes(s, gap, authority);
      LinkNamesWanted(wanted, s + more, authority);
    } else {
      assert more[0] == '/';
      var head, rest := FirstLink(s, more);
      EndingOfRest(head, s, rest);
      OpenEndingLinks(rest, gap, authority, wanted);
      NoneWantedParts(wanted, s + more, head, rest + more);
    }
  }

  lemma LinkNamesWanted(wanted: string -> bool, s: string, authority: string)
    requires wanted(authority) && exists scheme :: Link(scheme, authority) in Segments(s)
    ensures !NoneWanted(wanted, s)
  {
    hide Segments;
    var scheme :| Link(scheme, authority) in Segments(s);
    assert Link(scheme, authority).Link?;
  }

  lemma SchemeCompletes(t: string, gap: nat, authority: string)
    requires 1 <= gap <= 2 && FindSep(t) == None && EndsInScheme(t, gap) && IsAuthority(authority)
    ensures exists scheme :: Link(scheme, authority) in Segments(t + ("://"[gap..] + authority))
  {
    hide *;
    var front, link := OpenScheme(t, gap, authority);
    SegmentsOfLink(t + ("://"[gap..] + authority), front, link, "");
    assert ([Plain(front), link] + Segments(""))[1] == link;
    assert Link(link.scheme, authority) in Segments(t + ("://"[gap..] + authority));
  }

  /** The open scheme at the end of a text, and the link it makes. */
  lemma OpenScheme(t: string, gap: nat, authority: string) returns (front: string, link: Segment)
    requires 1 <= gap <= 2 && FindSep(t) == None && EndsInScheme(t, gap) && IsAuthority(authority)
    ensures BeforeLink(front) && IsLink(link) && link.Link? && link.authority == authority
    ensures t + ("://"[gap..] + authority) == front + SegmentText(link) + ""
  {
    hide FindSep, RunStart, SegmentText;
    var sep := |t| - gap;
    var start := SchemeStart(t, sep);
    front, link := t[..start], Link(t[start..sep], authority);
    FindSepExactly(t, None);
    assert forall i :: 0 <= i < start && SepAt(front, i) ==> SepAt(t, i);
    FindSepExactly(front, None);
    RunStartIsRun(t, sep);
    assert forall i :: 0 <= i < |link.scheme| ==> link.scheme[i] == t[start + i];
    GapFilled(t, start, gap, authority);
  }

  lemma GapFilled(t: string, start: nat, gap: nat, authority: string)
    requires gap <= 3 && start + gap <= |t| && t[|t| - gap..] == "://"[..gap]
    ensures t + ("://"[gap..] + authority)
         == t[..start] + SegmentText(Link(t[start..|t| - gap], authority)) + ""
  {
    var scheme := t[start..|t| - gap];
    assert t == t[..start] + scheme + t[|t| - gap..];
    RejoinedSep(t[..start], scheme, gap, authority);
  }

  lemma RejoinedSep(front: string, scheme: string, gap: nat, authority: string)
    requires gap <= 3
    ensures front + scheme + "://"[..gap] + ("://"[gap..] + authority)
         == front + SegmentText(Link(scheme, authority)) + ""
  {
    assert "://" == "://"[..gap] + "://"[gap..];
  }

  lemma SubstituteLink(replacement: string, wanted: string -> bool, link: Segment, rest: string)
    requires IsLink(link) && wanted(link.authority) && Closing(rest)
    ensures SwapTo(replacement, wanted, SegmentText(link) + rest) == replacement + SwapTo(replacement, wanted, rest)
  {
    hide Segments, Substitute;
    var s := SegmentText(link) + rest;
    assert s == "" + SegmentText(link) + rest;
    FindSepExactly("", None);
    SegmentsOfLink(s, "", link, rest);
    SubstituteTwo(replacement, wanted, Plain(""), link, Segments(rest));
    EmptyHead(replacement, SwapTo(replacement, wanted, rest));
  }

  lemma EmptyHead(replacement: string, rest: string)
    ensures "" + replacement + rest == replacement + rest
  {
  }

  /** The base and its tail segment into the base's link and the tail's segments. */
  lemma BaseThenTail(base: Base, tail: string)
    requires ValidBase(base) && Closing(tail)
    ensures Segments(BaseText(base) + tail) == [Plain(""), Link(base.scheme, base.authority)] + Segments(tail)
  {
    FindSepExactly("", None);
    var own := Link(base.scheme, base.authority);
    assert BaseText(base) + tail == "" + SegmentText(own) + tail;
    SegmentsOfLink(BaseText(base) + tail, "", own, tail);
  }

  /** A link to swap, alone or followed by what completes an open tail. */
  function Breaker(authority: string, gap: nat): string
    requires gap <= 3
  {
    if gap == 0 then "x://" + authority else "x://" + authority + ("://"[gap..] + authority)
  }

  /** A wanted link in the tail, or one that an open tail completes, is left by a swap. */
  lemma TailNamesWanted(base: Base, tail: string, wanted: string -> bool, authority: string, gap: nat)
    requires ValidBase(base) && Closing(tail) && IsAuthority(authority) && wanted(authority) && gap <= 2
    requires if gap == 0 then !NoneWanted(wanted, tail) else EndsInScheme(Ending(tail), gap)
    ensures !NoneWanted(wanted, SwapTo(BaseText(base) + tail, wanted, Breaker(authority, gap)))
  {
    hide SwapTo, Ending, EndsInScheme, NoneWanted, Segments, FindSep, BaseText, ValidBase, IsAuthority, Breaker;
    var more := if gap == 0 then "" else "://"[gap..] + authority;
    NoSepInside(authority, gap, more);
    SwapBreaker(BaseText(base) + tail, wanted, authority, gap, more);
    if gap == 0 {
      assert tail + more == tail;
    } else {
      OpenEndingLinks(tail, gap, authority, wanted);
    }
    LinkBehindBase(base, tail, wanted, more);
  }

  lemma LinkBehindBase(base: Base, tail: string, wanted: string -> bool, more: string)
    requires ValidBase(base) && Closing(tail) && Closing(more) && !NoneWanted(wanted, tail + more)
    ensures !NoneWanted(wanted, BaseText(base) + tail + more)
  {
    hide NoneWanted, Segments, BaseText, ValidBase;
    assert BaseText(base) + tail + more == BaseText(base) + (tail + more);
    assert Closing(tail + more);
    BaseThenTail(base, tail + more);
    var own := Link(base.scheme, base.authority);
    NoneWantedParts(wanted, BaseText(base) + (tail + more), [Plain(""), own], tail + more);
  }

  lemma SwapBreaker(replacement: string, wanted: string -> bool, authority: string, gap: nat, more: string)
    requires IsAuthority(authority) && wanted(authority) && gap <= 2
    requires more == (if gap == 0 then "" else "://"[gap..] + authority) && FindSep(more) == None && Closing(more)
    ensures SwapTo(replacement, wanted, Breaker(authority, gap)) == replacement + more
  {
    hide SwapTo, FindSep, SegmentText, Breaker;
    BreakerText(authority, gap, more);
    SubstituteLink(replacement, wanted, Link("x", authority), more);
    SwapWithoutSep(replacement, wanted, more);
  }

  lemma BreakerText(authority: string, gap: nat, more: string)
    requires gap <= 2 && more == if gap == 0 then "" else "://"[gap..] + authority
    ensures Breaker(authority, gap) == SegmentText(Link("x", authority)) + more
  {
  }

  lemma NoSepInside(authority: string, gap: nat, more: string)
    requires IsAuthority(authority) && gap <= 2 && more == if gap == 0 then "" else "://"[gap..] + authority
    ensures FindSep(more) == None && Closing(more)
  {
    if gap > 0 {
      var slashes := "://"[gap..];
      assert |slashes| == 3 - gap && forall i :: 0 <= i < |slashes| ==> slashes[i] == '/';
      assert forall i :: |slashes| <= i < |more| ==> more[i] == authority[i - |slashes|];
    }
    FindSepExactly(more, None);
  }

  /** A tail that ends in a scheme and a colon: the slashes kept from the text complete a link to the
      target, which the first swap leaves and the second one swaps. */
  lemma OpenTailRepeats(wanted: string -> bool)
    requires wanted("t") && !wanted("p")
    ensures SwapTo("b://p?http:", wanted, "x://t//t") == "b://p?http://t"
    ensures SwapTo("b://p?http:", wanted, "b://p?http://t") != "b://p?http://t"
  {
    hide SwapTo, NoneWanted, Segments, Ending;
    var base, tail := Base("b", "p"), "?http:";
    assert BaseText(base) + tail == "b://p?http:";
    assert Breaker("t", 1) == "x://t//t";
    NoSepInside("t", 1, "//t");
    SwapBreaker("b://p?http:", wanted, "t", 1, "//t");
    FindSepExactly(tail, None);
    EndingPlain(tail);
    RunStartUnique(tail, 5, 1);
    TailNamesWanted(base, tail, wanted, "t", 1);
    RepeatsExactly(base, tail, wanted, "x://t//t");
  }

  /** The base alone, swapped once and then again. */
  lemma TailRepeats(base: Base, tail: string, wanted: string -> bool)
    requires ValidBase(base) && wanted(base.authority) && tail != "" && Closing(tail)
    ensures var replacement := BaseText(base) + tail;
            && SwapTo(replacement, wanted, BaseText(base)) == replacement
            && SwapTo(replacement, wanted, replacement) != replacement
  {
    var replacement := BaseText(base) + tail;
    var link := Link(base.scheme, base.authority);
    SubstituteLink(replacement, wanted, link, "");
    assert SegmentText(link) + "" == BaseText(base);
    FindSepExactly("", None);
    SwapWithoutSep(replacement, wanted, "");
    SubstituteLink(replacement, wanted, link, tail);
    SegmentsWellSegmented(tail);
    assert SwapTo(replacement, wanted, tail) != "";
  }

  // ---------- the exact condition ----------

  ghost predicate Idempotent(replacement: string, wanted: string -> bool) {
    forall text :: SwapTo(replacement, wanted, SwapTo(replacement, wanted, text)) == SwapTo(replacement, wanted, text)
  }

  /** What a base and its tail must satisfy: if the base's own authority is swapped, there is no tail;
      if not, the tail holds no link to swap and does not end where one could begin. Where nothing is
      ever swapped, anything will do. */
  ghost predicate Repeatable(base: Base, tail: string, wanted: string -> bool) {
    || (forall authority :: IsAuthority(authority) ==> !wanted(authority))
    || if wanted(base.authority) then tail == ""
       else NoneWanted(wanted, tail) && !EndsOpen(Ending(tail))
  }

  /** Swapping is idempotent, for all texts, exactly for such a base and tail. */
  lemma IdempotentExactly(base: Base, tail: string, wanted: string -> bool)
    requires ValidBase(base) && Closing(tail)
    ensures Idempotent(BaseText(base) + tail, wanted) <==> Repeatable(base, tail, wanted)
  {
    if Repeatable(base, tail, wanted) {
      RepeatableSuffices(base, tail, wanted);
    } else {
      RepeatableNeeded(base, tail, wanted);
    }
  }

  lemma RepeatableSuffices(base: Base, tail: string, wanted: string -> bool)
    requires ValidBase(base) && Closing(tail) && Repeatable(base, tail, wanted)
    ensures Idempotent(BaseText(base) + tail, wanted)
  {
    hide SwapTo, EndsOpen, Ending;
    var replacement := BaseText(base) + tail;
    forall text
      ensures SwapTo(replacement, wanted, SwapTo(replacement, wanted, text)) == SwapTo(replacement, wanted, text)
    {
      if forall authority :: IsAuthority(authority) ==> !wanted(authority) {
        NothingWanted(wanted, text);
        SwapUnwanted(replacement, wanted, text);
      } else if wanted(base.authority) {
        assert replacement == BaseText(base);
        SwapIdempotent(base, wanted, text);
      } else {
        SwapLeavesNoneWanted(base, tail, wanted, text);
        RepeatsExactly(base, tail, wanted, text);
      }
    }
  }

  lemma NothingWanted(wanted: string -> bool, text: string)
    requires forall authority :: IsAuthority(authority) ==> !wanted(authority)
    ensures NoneWanted(wanted, text)
  {
    SegmentsWellSegmented(text);
    LinksAreLinks(Segments(text));
  }

  lemma {:induction false} LinksAreLinks(segments: seq<Segment>)
    requires WellSegmented(segments)
    ensures forall link :: link in segments && link.Link? ==> IsLink(link)
    decreases |segments|
  {
    if |segments| > 1 {
      var next := if segments[1].Link? then 2 else 1;
      LinksAreLinks(segments[next..]);
      assert segments == segments[..next] + segments[next..];
    }
  }

  lemma RepeatableNeeded(base: Base, tail: string, wanted: string -> bool)
    requires ValidBase(base) && Closing(tail) && !Repeatable(base, tail, wanted)
    ensures !Idempotent(BaseText(base) + tail, wanted)
  {
    hide SwapTo, Ending, EndsInScheme;
    var replacement := BaseText(base) + tail;
    var authority :| IsAuthority(authority) && wanted(authority);
    var text;
    if wanted(base.authority) {
      TailRepeats(base, tail, wanted);
      text := BaseText(base);
    } else {
      var gap := if !NoneWanted(wanted, tail) then 0 else if EndsInScheme(Ending(tail), 1) then 1 else 2;
      TailNamesWanted(base, tail, wanted, authority, gap);
      text := Breaker(authority, gap);
      RepeatsExactly(base, tail, wanted, text);
    }
    assert SwapTo(replacement, wanted, SwapTo(replacement, wanted, text)) != SwapTo(replacement, wanted, text);
  }
}
