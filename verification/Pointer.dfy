/** JSON pointers (RFC 6901) as `pointer_tokens` and `array_index` read them. */
module Pointer {
  import opened Wrappers
  import opened Text

  datatype PointerError =
    | NotAPointer
    | EndNotAllowed
    | NotAnIndex

  // ---------- unescaping ----------

  /** `token.replace("~<digit>", with)`: every non-overlapping occurrence, left to right. */
  function ReplaceEscape(s: string, digit: char, with: char): string {
    if |s| >= 2 && s[0] == '~' && s[1] == digit then [with] + ReplaceEscape(s[2..], digit, with)
    else if s == [] then []
    else [s[0]] + ReplaceEscape(s[1..], digit, with)
  }

  /** The two passes of the source, `~1` first. */
  function Unescape(s: string): string {
    ReplaceEscape(ReplaceEscape(s, '1', '/'), '0', '~')
  }

  /** The two passes in the other order, which the source warns against. */
  function UnescapeSwapped(s: string): string {
    ReplaceEscape(ReplaceEscape(s, '0', '~'), '1', '/')
  }

  /** Section 4 of RFC 6901 read as one left-to-right scan, keeping a stray tilde. */
  function Decode(s: string): string {
    if |s| >= 2 && s[0] == '~' && s[1] == '1' then ['/'] + Decode(s[2..])
    else if |s| >= 2 && s[0] == '~' && s[1] == '0' then ['~'] + Decode(s[2..])
    else if s == [] then []
    else [s[0]] + Decode(s[1..])
  }

  /** Section 3 of RFC 6901: `~` is written `~0` and `/` is written `~1`. */
  function Escape(s: string): string {
    if s == [] then []
    else (if s[0] == '~' then "~0" else if s[0] == '/' then "~1" else [s[0]]) + Escape(s[1..])
  }

  /** The grammar of section 3 of RFC 6901: no slash, and every tilde escapes something. */
  predicate WellEscaped(s: string) {
    if s == [] then true
    else if s[0] == '~' then |s| >= 2 && (s[1] == '0' || s[1] == '1') && WellEscaped(s[2..])
    else s[0] != '/' && WellEscaped(s[1..])
  }

  predicate HasTildeZeroOne(s: string) {
    |s| >= 3 && (s[..3] == "~01" || HasTildeZeroOne(s[1..]))
  }

  lemma {:induction false} UnescapeIsDecode(s: string)
    ensures Unescape(s) == Decode(s)
  {
    if |s| >= 2 && s[0] == '~' && (s[1] == '1' || s[1] == '0') {
      UnescapeIsDecode(s[2..]);
      if s[1] == '0' {
        var t := s[1..];
        assert t[1..] == s[2..];
        var once := ReplaceEscape(s[2..], '1', '/');
        assert ReplaceEscape(t, '1', '/') == ['0'] + once;
        var first := ReplaceEscape(s, '1', '/');
        assert first == ['~'] + (['0'] + once);
        assert first[2..] == once;
      } else {
        var once := ReplaceEscape(s[2..], '1', '/');
        assert (['/'] + once)[1..] == once;
      }
    } else if s != [] {
      UnescapeIsDecode(s[1..]);
      var once := ReplaceEscape(s[1..], '1', '/');
      var first := ReplaceEscape(s, '1', '/');
      assert first == [s[0]] + once;
      assert first[1..] == once;
      if s[0] == '~' && |first| >= 2 {
        ReplaceEscapeHead(s[1..], '1', '/');
      }
    }
  }

  /** A replacement pass only ever turns the first character into what it writes. */
  lemma ReplaceEscapeHead(s: string, digit: char, with: char)
    requires ReplaceEscape(s, digit, with) != []
    ensures s != []
    ensures ReplaceEscape(s, digit, with)[0] == s[0]
         || (ReplaceEscape(s, digit, with)[0] == with && s[0] == '~')
  {
  }

  /** The swapped order agrees exactly on the tokens without `~01`; elsewhere it loses characters. */
  lemma {:induction false} SwappedOrderExact(s: string)
    ensures UnescapeSwapped(s) == Unescape(s) <==> !HasTildeZeroOne(s)
  {
    UnescapeIsDecode(s);
    SwappedLength(s);
  }

  lemma HasTildeZeroOneSkip(s: string)
    requires s != [] && !(|s| >= 3 && s[0] == '~' && s[1] == '0' && s[2] == '1')
    ensures HasTildeZeroOne(s) == HasTildeZeroOne(s[1..])
  {
  }

  lemma {:induction false} SwappedLength(s: string)
    ensures HasTildeZeroOne(s) ==> |UnescapeSwapped(s)| < |Decode(s)|
    ensures !HasTildeZeroOne(s) ==> UnescapeSwapped(s) == Decode(s)
  {
    var once := ReplaceEscape(s, '0', '~');
    if |s| >= 2 && s[0] == '~' && s[1] == '0' {
      var rest := s[2..];
      SwappedLength(rest);
      var tail := ReplaceEscape(rest, '0', '~');
      assert once == ['~'] + tail && once[1..] == tail;
      if rest != [] && rest[0] == '1' {
        SwappedLength(rest[1..]);
        assert s[..3] == "~01";
        assert once[2..] == ReplaceEscape(rest[1..], '0', '~');
      } else {
        if tail != [] { ReplaceEscapeHead(rest, '0', '~'); }
        assert ReplaceEscape(once, '1', '/') == ['~'] + UnescapeSwapped(rest);
        assert s[1..][1..] == rest;
        HasTildeZeroOneSkip(s);
        HasTildeZeroOneSkip(s[1..]);
      }
    } else if |s| >= 2 && s[0] == '~' && s[1] == '1' {
      var rest := s[2..];
      SwappedLength(rest);
      assert s[1..][1..] == rest;
      HasTildeZeroOneSkip(s);
      HasTildeZeroOneSkip(s[1..]);
      assert ReplaceEscape(s[1..], '0', '~') == ['1'] + ReplaceEscape(rest, '0', '~');
      assert once == ['~'] + (['1'] + ReplaceEscape(rest, '0', '~'));
      assert once[2..] == ReplaceEscape(rest, '0', '~');
    } else if s != [] {
      SwappedLength(s[1..]);
      var tail := ReplaceEscape(s[1..], '0', '~');
      assert once == [s[0]] + tail && once[1..] == tail;
      if tail != [] { ReplaceEscapeHead(s[1..], '0', '~'); }
    }
  }

  // ---------- whole pointers ----------

  function DecodeAll(pieces: seq<string>): (tokens: seq<string>)
    ensures |tokens| == |pieces|
  {
    if pieces == [] then [] else [Unescape(pieces[0])] + DecodeAll(pieces[1..])
  }

  /** `pointer_tokens`: the empty pointer is the whole document. */
  function PointerTokens(pointer: string): Result<seq<string>, PointerError> {
    if pointer == "" then Ok([])
    else if pointer[0] != '/' then Err(NotAPointer)
    else Ok(DecodeAll(Split(pointer[1..], '/')))
  }

  /** The printer of section 3 of RFC 6901: a slash before each escaped token. */
  function PrintPointer(tokens: seq<string>): string {
    if tokens == [] then "" else "/" + Escape(tokens[0]) + PrintPointer(tokens[1..])
  }

  lemma {:induction false} DecodeEscape(s: string)
    ensures Decode(Escape(s)) == s
    ensures WellEscaped(Escape(s)) && Free(Escape(s), '/')
  {
    if s != [] {
      DecodeEscape(s[1..]);
      var e := Escape(s);
      if s[0] == '~' || s[0] == '/' {
        assert e[2..] == Escape(s[1..]);
      } else {
        assert e[1..] == Escape(s[1..]);
      }
    }
  }

  lemma {:induction false} EscapeDecode(s: string)
    requires WellEscaped(s)
    ensures Escape(Decode(s)) == s
  {
    if s != [] {
      if s[0] == '~' {
        EscapeDecode(s[2..]);
        assert s == s[..2] + s[2..];
        assert Decode(s)[1..] == Decode(s[2..]);
      } else {
        EscapeDecode(s[1..]);
        assert Decode(s)[1..] == Decode(s[1..]);
      }
    }
  }

  ghost function EscapeAll(tokens: seq<string>): (pieces: seq<string>)
    ensures |pieces| == |tokens|
  {
    if tokens == [] then [] else [Escape(tokens[0])] + EscapeAll(tokens[1..])
  }

  lemma {:induction false} DecodeEscapedAll(tokens: seq<string>)
    ensures DecodeAll(EscapeAll(tokens)) == tokens
    ensures AllFree(EscapeAll(tokens), '/')
  {
    if tokens != [] {
      DecodeEscape(tokens[0]);
      UnescapeIsDecode(Escape(tokens[0]));
      DecodeEscapedAll(tokens[1..]);
    }
  }

  lemma JoinCons(head: string, tail: seq<string>)
    requires tail != []
    ensures "/" + Join([head] + tail, '/') == "/" + head + ("/" + Join(tail, '/'))
  {
  }

  lemma {:induction false} PrintIsJoin(tokens: seq<string>)
    requires tokens != []
    ensures PrintPointer(tokens) == "/" + Join(EscapeAll(tokens), '/')
  {
    hide Join, Escape;
    if |tokens| > 1 {
      PrintIsJoin(tokens[1..]);
      JoinCons(Escape(tokens[0]), EscapeAll(tokens[1..]));
    } else {
      assert EscapeAll(tokens) == [Escape(tokens[0])];
      JoinOne(Escape(tokens[0]));
    }
  }

  lemma JoinOne(head: string)
    ensures Join([head], '/') == head
  {
  }

  /** Reading a printed pointer gives back the tokens, empty list and empty tokens included. */
  lemma ReadPrinted(tokens: seq<string>)
    ensures PointerTokens(PrintPointer(tokens)) == Ok(tokens)
  {
    if tokens != [] {
      PrintIsJoin(tokens);
      DecodeEscapedAll(tokens);
      SplitJoin(EscapeAll(tokens), '/');
    }
  }

  ghost predicate AllWellEscaped(pieces: seq<string>) {
    forall i :: 0 <= i < |pieces| ==> WellEscaped(pieces[i])
  }

  lemma {:induction false} EscapeDecodedAll(pieces: seq<string>)
    requires AllFree(pieces, '/')
    ensures EscapeAll(DecodeAll(pieces)) == pieces <==> AllWellEscaped(pieces)
  {
    if pieces != [] {
      EscapeDecodedAll(pieces[1..]);
      UnescapeIsDecode(pieces[0]);
      DecodeEscape(Decode(pieces[0]));
      if WellEscaped(pieces[0]) { EscapeDecode(pieces[0]); }
      assert DecodeAll(pieces)[1..] == DecodeAll(pieces[1..]);
      var back := EscapeAll(DecodeAll(pieces));
      assert back == [Escape(Decode(pieces[0]))] + EscapeAll(DecodeAll(pieces[1..]));
      assert back == pieces <==> back[0] == pieces[0] && back[1..] == pieces[1..];
      assert AllWellEscaped(pieces) <==> WellEscaped(pieces[0]) && AllWellEscaped(pieces[1..]) by {
        assert forall i :: 0 <= i < |pieces| - 1 ==> pieces[1..][i] == pieces[i + 1];
        assert forall i :: 1 <= i < |pieces| ==> pieces[i] == pieces[1..][i - 1];
      }
    }
  }

  /** A pointer that is read prints back to itself exactly when the RFC's grammar allows it; the
      reader is more lenient than the grammar. */
  lemma PrintRead(pointer: string)
    requires PointerTokens(pointer).Ok?
    ensures PrintPointer(PointerTokens(pointer).value) == pointer
       <==> (pointer == "" || AllWellEscaped(Split(pointer[1..], '/')))
  {
    if pointer != "" {
      var pieces := Split(pointer[1..], '/');
      JoinSplit(pointer[1..], '/');
      EscapeDecodedAll(pieces);
      PrintIsJoin(DecodeAll(pieces));
      DecodeEscapedAll(DecodeAll(pieces));
      PrintedEqual(pointer, Join(EscapeAll(DecodeAll(pieces)), '/'));
      if Join(EscapeAll(DecodeAll(pieces)), '/') == pointer[1..] {
        SplitJoin(EscapeAll(DecodeAll(pieces)), '/');
      }
    }
  }

  /** The leniency at work: the grammar has no `/~2`, the reader takes it, and prints `/~02`. */
  lemma StrayTilde()
    ensures PointerTokens("/~2") == Ok(["~2"]) && PrintPointer(["~2"]) == "/~02"
  {
    SplitWhole("~2", '/');
    UnescapeIsDecode("~2");
    assert "/~2"[1..] == "~2";
    assert Decode("2") == "2" && "~2"[1..] == "2";
    assert DecodeAll(["~2"]) == ["~2"] by { assert ["~2"][1..] == []; }
    assert Escape("2") == "2" && "2"[1..] == "";
    assert ["~2"][1..] == [];
  }

  lemma PrintedEqual(pointer: string, body: string)
    requires pointer != "" && pointer[0] == '/'
    ensures "/" + body == pointer <==> body == pointer[1..]
  {
  }

  /** Only the empty text and a text that starts with a slash are pointers, and the pieces between
      slashes are the tokens, each decoded. */
  lemma PointerPieces(pieces: seq<string>)
    requires pieces != [] && AllFree(pieces, '/')
    ensures PointerTokens("/" + Join(pieces, '/')).Ok?
    ensures var tokens := PointerTokens("/" + Join(pieces, '/')).value;
            |tokens| == |pieces| && forall i :: 0 <= i < |pieces| ==> tokens[i] == Decode(pieces[i])
    ensures forall text :: text != "" && text[0] != '/' ==> PointerTokens(text) == Err(NotAPointer)
  {
    SplitJoin(pieces, '/');
    assert ("/" + Join(pieces, '/'))[1..] == Join(pieces, '/');
    DecodedPieces(pieces);
  }

  lemma {:induction false} DecodedPieces(pieces: seq<string>)
    ensures forall i :: 0 <= i < |pieces| ==> DecodeAll(pieces)[i] == Decode(pieces[i])
  {
    if pieces != [] {
      UnescapeIsDecode(pieces[0]);
      DecodedPieces(pieces[1..]);
      assert forall i :: 1 <= i < |pieces| ==> DecodeAll(pieces)[i] == DecodeAll(pieces[1..])[i - 1];
    }
  }

  /** `~1` stands for a slash and `~0` for a tilde, and what is around them stands for itself. */
  lemma {:induction false} EscapesDecoded(plain: string, rest: string)
    requires Free(plain, '~')
    ensures Decode(plain + "~1" + rest) == plain + "/" + Decode(rest)
    ensures Decode(plain + "~0" + rest) == plain + "~" + Decode(rest)
    ensures Decode(plain) == plain
  {
    hide Decode;
    assert ("~1" + rest)[2..] == rest && ("~0" + rest)[2..] == rest;
    PlainDecoded(plain, "~1" + rest);
    PlainDecoded(plain, "~0" + rest);
    PlainDecoded(plain, "");
    EscapeDecoded("~1" + rest);
    EscapeDecoded("~0" + rest);
    assert plain + ("~1" + rest) == plain + "~1" + rest && plain + ("~0" + rest) == plain + "~0" + rest;
    assert plain + "" == plain && Decode("") == "" by { NothingDecoded(); }
    assert plain + ("/" + Decode(rest)) == plain + "/" + Decode(rest);
    assert plain + ("~" + Decode(rest)) == plain + "~" + Decode(rest);
  }

  lemma NothingDecoded()
    ensures Decode("") == ""
  {
  }

  lemma EscapeDecoded(s: string)
    requires |s| >= 2 && s[0] == '~' && (s[1] == '0' || s[1] == '1')
    ensures Decode(s) == (if s[1] == '1' then "/" else "~") + Decode(s[2..])
  {
  }

  lemma {:induction false} PlainDecoded(plain: string, rest: string)
    requires Free(plain, '~')
    ensures Decode(plain + rest) == plain + Decode(rest)
  {
    if plain == "" {
      assert plain + rest == rest;
    } else {
      PlainDecoded(plain[1..], rest);
      assert (plain + rest)[1..] == plain[1..] + rest;
      assert plain + Decode(rest) == [plain[0]] + (plain[1..] + Decode(rest));
    }
  }

  // ---------- array tokens ----------

  /** `array_index`: digits with no leading zero, or `-` where the caller allows the end. */
  function ArrayIndex(token: string, len: nat, allowEnd: bool): Result<nat, PointerError> {
    if token == "-" then
      if allowEnd then Ok(len) else Err(EndNotAllowed)
    else if token == [] || !AllDigits(token) || (|token| > 1 && token[0] == '0') then
      Err(NotAnIndex)
    else
      match ParseUsize(token)
      case Some(n) => Ok(n)
      case None => Err(NotAnIndex)
  }

  /** Away from `-`, a token is index n exactly when it is the one decimal spelling of n and n
      fits a `usize` (section 4 of RFC 6901). */
  lemma ArrayIndexIsCanonical(token: string, len: nat, n: nat)
    ensures ArrayIndex(token, len, false) == Ok(n) <==> n <= USIZE_MAX && token == Decimal(n)
  {
    DecimalValue(n);
    if n <= USIZE_MAX && token == Decimal(n) {
      assert IsDigit(token[0]);
      assert token != "-";
    }
    if ArrayIndex(token, len, false) == Ok(n) {
      assert IsDigit(token[0]);
      ValueDecimal(token);
    }
  }
}
