/** Clipping a body for the log (`truncate_body`), on the bytes of a UTF-8 string. */
module LogClip {
  import opened Wrappers
  import opened Text

  const MAX_BODY_LOG: nat := 16 * 1024

  newtype Byte = x: int | 0 <= x < 256

  // ---------- UTF-8 (section 3 of RFC 3629) ----------

  function Continuation(n: nat): Byte {
    (0x80 + n % 0x40) as Byte
  }

  function EncodeChar(c: char): (bytes: seq<Byte>)
    ensures |bytes| == Utf8Width(c)
  {
    var n := c as int;
    if n < 0x80 then [n as Byte]
    else if n < 0x800 then [(0xC0 + n / 0x40) as Byte, Continuation(n)]
    else if n < 0x10000 then [(0xE0 + n / 0x1000) as Byte, Continuation(n / 0x40), Continuation(n)]
    else [(0xF0 + n / 0x40000) as Byte, Continuation(n / 0x1000), Continuation(n / 0x40), Continuation(n)]
  }

  function Encode(s: string): (bytes: seq<Byte>)
    ensures |bytes| == Utf8Len(s)
  {
    if s == [] then [] else EncodeChar(s[0]) + Encode(s[1..])
  }

  predicate IsContinuation(b: Byte) {
    0x80 <= b < 0xC0
  }

  /** Rust's `is_char_boundary`: either end, or a byte that does not continue a character. */
  predicate IsCharBoundary(body: seq<Byte>, at: nat) {
    at == 0 || at == |body| || (at < |body| && !IsContinuation(body[at]))
  }

  /** The first byte of a character starts it, and only the first does. */
  lemma EncodeCharShape(c: char)
    ensures forall i :: 0 <= i < |EncodeChar(c)| ==> (IsContinuation(EncodeChar(c)[i]) <==> i > 0)
  {
  }

  lemma {:induction false} EncodeAppend(a: string, b: string)
    ensures Encode(a + b) == Encode(a) + Encode(b)
  {
    if a == [] {
      assert a + b == b;
    } else {
      assert (a + b)[1..] == a[1..] + b;
      EncodeAppend(a[1..], b);
    }
  }

  /** The boundaries of an encoded string are exactly the ends of its prefixes. */
  lemma {:induction false} BoundaryIsPrefixEnd(s: string, at: nat)
    requires at <= |Encode(s)|
    ensures IsCharBoundary(Encode(s), at) <==> exists k :: 0 <= k <= |s| && |Encode(s[..k])| == at
  {
    if s == [] {
      assert |Encode(s[..0])| == 0;
    } else {
      var width := Utf8Width(s[0]);
      EncodeCharShape(s[0]);
      if at < width {
        if at == 0 {
          assert |Encode(s[..0])| == 0;
        } else {
          assert Encode(s)[at] == EncodeChar(s[0])[at];
          forall k | 0 <= k <= |s|
            ensures |Encode(s[..k])| != at
          {
            if k > 0 {
              assert s[..k][0] == s[0];
            }
          }
        }
      } else {
        TailBoundary(s, at);
        BoundaryIsPrefixEnd(s[1..], at - width);
        PrefixEndsShift(s, at);
      }
    }
  }

  lemma TailBoundary(s: string, at: nat)
    requires s != [] && Utf8Width(s[0]) <= at <= |Encode(s)|
    ensures IsCharBoundary(Encode(s), at) <==> IsCharBoundary(Encode(s[1..]), at - Utf8Width(s[0]))
  {
    var width := Utf8Width(s[0]);
    assert at < |Encode(s)| ==> Encode(s)[at] == Encode(s[1..])[at - width];
    if at == width && s[1..] != [] {
      EncodeCharShape(s[1]);
      assert Encode(s[1..])[0] == EncodeChar(s[1])[0];
    }
  }

  lemma PrefixEndsShift(s: string, at: nat)
    requires s != [] && Utf8Width(s[0]) <= at
    ensures (exists k :: 0 <= k <= |s| && |Encode(s[..k])| == at)
       <==> exists k :: 0 <= k <= |s[1..]| && |Encode(s[1..][..k])| == at - Utf8Width(s[0])
  {
    forall k | 0 <= k < |s|
      ensures |Encode(s[..k + 1])| == Utf8Width(s[0]) + |Encode(s[1..][..k])|
    {
      assert s[..k + 1][0] == s[0] && s[..k + 1][1..] == s[1..][..k];
    }
    if k :| 0 <= k <= |s| && |Encode(s[..k])| == at {
      assert k > 0;
      assert |Encode(s[1..][..k - 1])| == at - Utf8Width(s[0]);
    }
    if k :| 0 <= k <= |s[1..]| && |Encode(s[1..][..k])| == at - Utf8Width(s[0]) {
      assert |Encode(s[..k + 1])| == at;
    }
  }

  // ---------- the clip ----------

  /** What reaches the log: the kept bytes, and how many were reported cut, if any were. */
  datatype Clipped = Clipped(kept: seq<Byte>, cut: Option<nat>)

  /** `truncate_body` on the bytes of a string: walks back from the cap to a boundary. */
  method TruncateBody(body: seq<Byte>, ghost text: string) returns (clipped: Clipped)
    requires body == Encode(text)
    ensures clipped.cut.None? <==> |body| <= 16384
    ensures clipped.cut.None? ==> clipped.kept == body
    ensures clipped.cut.Some? ==>
        && |clipped.kept| <= 16384 && |clipped.kept| >= 16384 - 3
        && |clipped.kept| + clipped.cut.value == |body|
        && (exists k :: 0 <= k <= |text| && clipped.kept == Encode(text[..k]))
        && (forall k :: 0 <= k <= |text| && |Encode(text[..k])| <= 16384 ==>
              |Encode(text[..k])| <= |clipped.kept|)
  {
    if |body| <= MAX_BODY_LOG {
      return Clipped(body, None);
    }
    var end: nat := MAX_BODY_LOG;
    while end > 0 && !IsCharBoundary(body, end)
      invariant end <= MAX_BODY_LOG
      invariant forall i :: end < i <= MAX_BODY_LOG ==> !IsCharBoundary(body, i)
    {
      end := end - 1;
    }
    BoundaryIsPrefixEnd(text, end);
    ghost var k :| 0 <= k <= |text| && |Encode(text[..k])| == end;
    KeptIsPrefix(text, k);
    BoundaryNearby(text, MAX_BODY_LOG);
    forall j | 0 <= j <= |text| && |Encode(text[..j])| <= MAX_BODY_LOG
      ensures |Encode(text[..j])| <= end
    {
      BoundaryIsPrefixEnd(text, |Encode(text[..j])|);
    }
    return Clipped(body[..end], Some(|body| - end));
  }

  lemma KeptIsPrefix(text: string, k: nat)
    requires k <= |text|
    ensures |Encode(text[..k])| <= |Encode(text)| && Encode(text)[..|Encode(text[..k])|] == Encode(text[..k])
  {
    EncodeAppend(text[..k], text[k..]);
    assert text[..k] + text[k..] == text;
  }

  /** No four consecutive places in an encoded string are all inside characters. */
  lemma {:induction false} BoundaryNearby(text: string, at: nat)
    requires at <= |Encode(text)|
    ensures exists i :: 0 <= i <= at && at - i <= 3 && IsCharBoundary(Encode(text), i)
  {
    if text != [] && at >= Utf8Width(text[0]) {
      var width := Utf8Width(text[0]);
      BoundaryNearby(text[1..], at - width);
      var i :| 0 <= i <= at - width && at - width - i <= 3 && IsCharBoundary(Encode(text[1..]), i);
      TailBoundary(text, i + width);
    } else {
      assert IsCharBoundary(Encode(text), 0);
    }
  }
}
