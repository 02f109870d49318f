/** Where the links of a text are, in terms of its characters alone: which characters a scheme may
    hold, which ones end an authority, and what a swap makes of each. */
module LinkText {
  import opened Wrappers
  import opened Text
  import opened Links

  ghost predicate SchemeText(s: string) {
    && s != "" && ('a' <= s[0] <= 'z' || 'A' <= s[0] <= 'Z')
    && forall i :: 0 <= i < |s| ==>
         'a' <= s[i] <= 'z' || 'A' <= s[i] <= 'Z' || '0' <= s[i] <= '9' || s[i] in "+-."
  }

  /** No scheme can reach back into this text from the character after it, and no `://` is in it. */
  ghost predicate PlainFront(s: string) {
    && (forall i :: 0 <= i <= |s| ==> !("://" <= s[i..]))
    && (s != "" ==>
          var c := s[|s| - 1];
          !('a' <= c <= 'z' || 'A' <= c <= 'Z' || '0' <= c <= '9' || c in "+-."))
  }

  lemma Stops(c: char)
    ensures IsDelimiter(c) <==> c in "/?#\"'<>, \t"
  {
    var stops := "/?#\"'<>, \t";
    assert stops == ['/', '?', '#', '"', '\'', '<', '>', ',', ' ', '\t'];
  }

  lemma SchemeChars(c: char)
    ensures IsSchemeChar(c) <==> 'a' <= c <= 'z' || 'A' <= c <= 'Z' || '0' <= c <= '9' || c in "+-."
  {
    assert "+-." == ['+', '-', '.'];
  }

  lemma SepText(s: string, i: nat)
    requires i <= |s|
    ensures SepAt(s, i) <==> "://" <= s[i..]
  {
    if SepAt(s, i) {
      assert s[i..][0] == ':' && s[i..][1] == '/' && s[i..][2] == '/';
    }
    if "://" <= s[i..] {
      assert forall k :: 0 <= k < 3 ==> s[i + k] == s[i..][k] == "://"[k];
    }
  }

  lemma FrontIsPlain(front: string)
    requires PlainFront(front)
    ensures BeforeLink(front)
  {
    forall i | 0 <= i < |front|
      ensures !SepAt(front, i)
    {
      SepText(front, i);
    }
    FindSepExactly(front, None);
    if front != "" {
      SchemeChars(front[|front| - 1]);
    }
  }

  lemma SchemeIsScheme(scheme: string)
    requires SchemeText(scheme)
    ensures IsScheme(scheme)
  {
    forall i | 0 <= i < |scheme|
      ensures IsSchemeChar(scheme[i])
    {
      SchemeChars(scheme[i]);
    }
  }

  /** A scheme, `://` and a host are a link, and the host ends at the first of the ten characters
      `/ ? # " ' < > ,` space and tab, or at the end of the text, whatever else it holds. */
  lemma LinkEndsAtStop(front: string, scheme: string, host: string, rest: string)
    requires PlainFront(front) && SchemeText(scheme)
    requires forall i :: 0 <= i < |host| ==> host[i] !in "/?#\"'<>, \t"
    requires rest != "" ==> rest[0] in "/?#\"'<>, \t"
    ensures Segments(front + scheme + "://" + host + rest) == [Plain(front), Link(scheme, host)] + Segments(rest)
  {
    hide Segments, BeforeLink, IsScheme, IsDelimiter, PlainFront, SchemeText, SegmentText;
    FrontIsPlain(front);
    SchemeIsScheme(scheme);
    HostIsAuthority(host, rest);
    LinkAsText(front, scheme, host, rest);
    SegmentsOfLink(front + scheme + "://" + host + rest, front, Link(scheme, host), rest);
  }

  lemma HostIsAuthority(host: string, rest: string)
    requires forall i :: 0 <= i < |host| ==> host[i] !in "/?#\"'<>, \t"
    requires rest != "" ==> rest[0] in "/?#\"'<>, \t"
    ensures IsAuthority(host) && (rest != "" ==> IsDelimiter(rest[0]))
  {
    hide IsDelimiter;
    forall i | 0 <= i < |host|
      ensures !IsDelimiter(host[i])
    {
      Stops(host[i]);
    }
    if rest != "" {
      Stops(rest[0]);
    }
  }

  lemma LinkAsText(front: string, scheme: string, host: string, rest: string)
    ensures front + scheme + "://" + host + rest == front + SegmentText(Link(scheme, host)) + rest
  {
  }

  /** Swapping such a text: an accepted link gives way to the replacement, another stays, and what
      follows the host is swapped in its turn. */
  lemma SwapOneLink(replacement: string, wanted: string -> bool, front: string, scheme: string, host: string,
      rest: string)
    requires PlainFront(front) && SchemeText(scheme)
    requires forall i :: 0 <= i < |host| ==> host[i] !in "/?#\"'<>, \t"
    requires rest != "" ==> rest[0] in "/?#\"'<>, \t"
    ensures SwapTo(replacement, wanted, front + scheme + "://" + host + rest)
         == front + (if wanted(host) then replacement else scheme + "://" + host) + SwapTo(replacement, wanted, rest)
  {
    hide Segments, Substitute;
    LinkEndsAtStop(front, scheme, host, rest);
    SubstituteTwo(replacement, wanted, Plain(front), Link(scheme, host), Segments(rest));
  }

  /** Each of the ten characters ends an authority: what stands before it is swapped, and it is kept. */
  lemma StopEndsAuthority(base: Base, wanted: string -> bool, scheme: string, host: string, c: char, rest: string)
    requires SchemeText(scheme) && wanted(host) && c in "/?#\"'<>, \t"
    requires forall i :: 0 <= i < |host| ==> host[i] !in "/?#\"'<>, \t"
    ensures Swap(base, wanted, scheme + "://" + host + [c] + rest) == BaseText(base) + Swap(base, wanted, [c] + rest)
  {
    hide SwapTo, BaseText;
    SwapOneLink(BaseText(base), wanted, "", scheme, host, [c] + rest);
    assert "" + scheme + "://" + host + ([c] + rest) == scheme + "://" + host + [c] + rest;
    EmptyFront(BaseText(base));
  }

  lemma EmptyFront(text: string)
    ensures "" + text == text
  {
  }

  /** A link to the target's address, with or without a port, gives way to the base wherever it
      stands in a text. */
  lemma TargetSwapped(base: Base, ip: string, front: string, scheme: string, port: string, rest: string)
    requires PlainFront(front) && SchemeText(scheme)
    requires forall i :: 0 <= i < |ip| ==> ip[i] !in ":/?#\"'<>, \t"
    requires forall i :: 0 <= i < |port| ==> '0' <= port[i] <= '9'
    requires rest != "" ==> rest[0] in "/?#\"'<>, \t"
    ensures var host := ip + if port == "" then "" else ":" + port;
            Swap(base, NamesTarget(ip), front + scheme + "://" + host + rest)
            == front + BaseText(base) + Swap(base, NamesTarget(ip), rest)
  {
    hide SwapTo, BaseText, PlainFront, SchemeText, HostOf;
    var host := ip + if port == "" then "" else ":" + port;
    forall i | 0 <= i < |host|
      ensures host[i] !in "/?#\"'<>, \t"
    {
      if i < |ip| {
        assert host[i] == ip[i];
      } else if i > |ip| {
        assert host[i] == port[i - |ip| - 1];
      }
    }
    PortKeepsTarget(ip, port, host);
    SwapOneLink(BaseText(base), NamesTarget(ip), front, scheme, host, rest);
  }

  lemma PortKeepsTarget(ip: string, port: string, host: string)
    requires Free(ip, ':') && forall i :: 0 <= i < |port| ==> '0' <= port[i] <= '9'
    requires host == ip + if port == "" then "" else ":" + port
    ensures NamesTarget(ip)(host)
  {
    hide HostOf, EqIgnoreCase;
    assert EqIgnoreCase(ip, ip) by { SameButForCase(ip, ip); }
    if port == "" {
      assert host == ip;
    } else {
      assert WithPort(host, ip, port);
    }
    IsTargetExactly(host, ip);
  }

  /** Any other character stays inside the authority: the link of a text goes on over it. */
  lemma OtherStaysInside(scheme: string, host: string, c: char, rest: string)
    requires SchemeText(scheme) && c !in "/?#\"'<>, \t"
    requires forall i :: 0 <= i < |host| ==> host[i] !in "/?#\"'<>, \t"
    ensures var segments := Segments(scheme + "://" + host + [c] + rest);
            |segments| >= 2 && segments[1].Link? && host + [c] <= segments[1].authority
  {
    hide Segments;
    var n := UpToStop(rest);
    var longer := host + [c] + rest[..n];
    assert "" + scheme + "://" + longer + rest[n..] == scheme + "://" + host + [c] + rest;
    LinkEndsAtStop("", scheme, longer, rest[n..]);
  }

  /** How far a text goes before the first of the ten characters. */
  lemma {:induction false} UpToStop(s: string) returns (n: nat)
    ensures n <= |s| && (forall i :: 0 <= i < n ==> s[i] !in "/?#\"'<>, \t")
    ensures n < |s| ==> s[n] in "/?#\"'<>, \t"
  {
    n := 0;
    while n < |s| && s[n] !in "/?#\"'<>, \t"
      invariant n <= |s| && forall i :: 0 <= i < n ==> s[i] !in "/?#\"'<>, \t"
    {
      n := n + 1;
    }
  }

  /** A `://` with no scheme in front, or with a run of scheme characters that no letter begins, is
      no link: it stays, and only what follows it is swapped. */
  lemma BareSepStays(replacement: string, wanted: string -> bool, front: string, run: string, rest: string)
    requires PlainFront(front)
    requires forall i :: 0 <= i < |run| ==>
               'a' <= run[i] <= 'z' || 'A' <= run[i] <= 'Z' || '0' <= run[i] <= '9' || run[i] in "+-."
    requires run != "" ==> !('a' <= run[0] <= 'z' || 'A' <= run[0] <= 'Z')
    ensures SwapTo(replacement, wanted, front + run + "://" + rest)
         == front + run + "://" + SwapTo(replacement, wanted, rest)
  {
    hide SwapTo, FindSep;
    var text, sep := front + run + "://" + rest, |front| + |run|;
    RunIsBare(front, run, rest);
    SwapBareSep(replacement, wanted, text, sep);
    assert text[..sep + 3] == front + run + "://" && text[sep + 3..] == rest;
  }

  lemma RunIsBare(front: string, run: string, rest: string)
    requires PlainFront(front)
    requires forall i :: 0 <= i < |run| ==>
               'a' <= run[i] <= 'z' || 'A' <= run[i] <= 'Z' || '0' <= run[i] <= '9' || run[i] in "+-."
    requires run != "" ==> !('a' <= run[0] <= 'z' || 'A' <= run[0] <= 'Z')
    ensures var sep := |front| + |run|;
            FindSep(front + run + "://" + rest) == Some(sep) && SchemeStart(front + run + "://" + rest, sep) == sep
  {
    hide FindSep, RunStart, IsSchemeChar, PlainFront;
    FrontIsPlain(front);
    forall i | 0 <= i < |run|
      ensures IsSchemeChar(run[i])
    {
      SchemeChars(run[i]);
    }
    var text, start, sep := front + run + "://" + rest, |front|, |front| + |run|;
    BareSepFirst(front, run, rest, text);
    FindSepExactly(text, Some(sep));
    assert forall i :: start <= i < sep ==> text[i] == run[i - start];
    assert start > 0 ==> text[start - 1] == front[start - 1];
    RunStartUnique(text, sep, start);
  }

  lemma BareSepFirst(front: string, run: string, rest: string, text: string)
    requires BeforeLink(front) && text == front + run + "://" + rest
    requires forall i :: 0 <= i < |run| ==> IsSchemeChar(run[i])
    ensures SepAt(text, |front| + |run|) && NoSepBefore(text, |front| + |run|)
  {
    hide FindSep;
    FindSepExactly(front, None);
    assert forall i :: 0 <= i < |front| ==> text[i] == front[i];
    assert forall i :: 0 <= i < |run| ==> text[|front| + i] == run[i];
    assert text[|front| + |run|..] == "://" + rest;
    assert text[|front| + |run|] == ':' && text[|front| + |run| + 1] == '/' && text[|front| + |run| + 2] == '/';
    forall i | 0 <= i < |front| + |run|
      ensures !SepAt(text, i)
    {
      if i + 3 <= |front| {
        assert SepAt(text, i) ==> SepAt(front, i);
      } else if i < |front| {
        assert run != "" ==> text[|front|] == run[0] && IsSchemeChar(run[0]);
      } else {
        assert IsSchemeChar(run[i - |front|]);
      }
    }
  }
}
