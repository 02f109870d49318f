/** String primitives the source takes from Rust's standard library: `split`, `parse::<usize>`,
    the UTF-8 length of a string, and ASCII case folding. A Dafny `char` is a Unicode scalar
    value, as a Rust `char` is. */
module Text {
  import opened Wrappers

  /** Largest value of the source's `usize`, on the 64-bit targets it is built for. */
  const USIZE_MAX: nat := 0xFFFF_FFFF_FFFF_FFFF

  // ---------- splitting on a separator ----------

  /** `str::split` on one character: always at least one piece. */
  function Split(s: string, sep: char): (parts: seq<string>)
    ensures |parts| >= 1
  {
    if s == [] then [[]]
    else
      var rest := Split(s[1..], sep);
      if s[0] == sep then [[]] + rest
      else [[s[0]] + rest[0]] + rest[1..]
  }

  function Join(parts: seq<string>, sep: char): string
    requires parts != []
  {
    if |parts| == 1 then parts[0] else parts[0] + [sep] + Join(parts[1..], sep)
  }

  ghost predicate Free(s: string, c: char) {
    forall i :: 0 <= i < |s| ==> s[i] != c
  }

  ghost predicate AllFree(parts: seq<string>, c: char) {
    forall i :: 0 <= i < |parts| ==> Free(parts[i], c)
  }

  /** A separator-free head comes back as the first piece. */
  lemma {:induction false} SplitHead(a: string, sep: char, b: string)
    requires Free(a, sep)
    ensures Split(a + [sep] + b, sep) == [a] + Split(b, sep)
  {
    var s := a + [sep] + b;
    if a == [] {
      assert s[1..] == b;
    } else {
      SplitHead(a[1..], sep, b);
      assert s[1..] == a[1..] + [sep] + b;
      assert s[0] == a[0] != sep;
      assert a == [a[0]] + a[1..];
    }
  }

  lemma {:induction false} SplitWhole(a: string, sep: char)
    requires Free(a, sep)
    ensures Split(a, sep) == [a]
  {
    if a != [] {
      SplitWhole(a[1..], sep);
      assert a[0] != sep && a == [a[0]] + a[1..];
    }
  }

  /** Splitting inverts joining separator-free pieces. */
  lemma {:induction false} SplitJoin(parts: seq<string>, sep: char)
    requires parts != [] && AllFree(parts, sep)
    ensures Split(Join(parts, sep), sep) == parts
  {
    if |parts| == 1 {
      SplitWhole(parts[0], sep);
    } else {
      SplitHead(parts[0], sep, Join(parts[1..], sep));
      SplitJoin(parts[1..], sep);
    }
  }

  /** Joining inverts splitting, and the pieces are separator-free. */
  lemma {:induction false} JoinSplit(s: string, sep: char)
    ensures Join(Split(s, sep), sep) == s
    ensures AllFree(Split(s, sep), sep)
  {
    if s != [] {
      JoinSplit(s[1..], sep);
      var rest := Split(s[1..], sep);
      if s[0] == sep {
        assert ([[]] + rest)[1..] == rest;
      } else {
        var parts := [[s[0]] + rest[0]] + rest[1..];
        assert parts[1..] == rest[1..];
        assert Join(parts, sep) == [s[0]] + Join(rest, sep);
      }
    }
  }

  // ---------- trailing slashes ----------

  /** `trim_end_matches('/')`. */
  function TrimSlashes(s: string): string {
    if s != "" && s[|s| - 1] == '/' then TrimSlashes(s[..|s| - 1]) else s
  }

  lemma {:induction false} TrimSlashesAll(body: string, n: nat)
    requires body == "" || body[|body| - 1] != '/'
    ensures TrimSlashes(body + seq(n, _ => '/')) == body
  {
    var s := body + seq(n, _ => '/');
    if n == 0 {
      assert s == body;
    } else {
      TrimSlashesAll(body, n - 1);
      assert s[..|s| - 1] == body + seq(n - 1, _ => '/');
    }
  }

  // ---------- decimal numbers ----------

  predicate IsDigit(c: char) { '0' <= c <= '9' }

  predicate AllDigits(s: string) {
    forall i :: 0 <= i < |s| ==> IsDigit(s[i])
  }

  function DigitsValue(s: string): nat
    requires AllDigits(s)
  {
    if s == [] then 0
    else 10 * DigitsValue(s[..|s| - 1]) + (s[|s| - 1] as int - '0' as int)
  }

  /** Rust's `parse::<usize>`: an optional plus sign, at least one digit, leading zeros allowed,
      and a value that fits. */
  function ParseUsize(s: string): Option<nat> {
    var digits := if s != [] && s[0] == '+' then s[1..] else s;
    if digits == [] || !AllDigits(digits) then None
    else if DigitsValue(digits) > USIZE_MAX then None
    else Some(DigitsValue(digits))
  }

  function Decimal(n: nat): (s: string)
    ensures s != [] && AllDigits(s)
  {
    var digit := [('0' as int + n % 10) as char];
    if n < 10 then digit else Decimal(n / 10) + digit
  }

  /** No sign and no leading zero, so each number has one spelling. */
  predicate CanonicalDigits(s: string) {
    s != [] && AllDigits(s) && (|s| > 1 ==> s[0] != '0')
  }

  lemma {:induction false} DecimalValue(n: nat)
    ensures DigitsValue(Decimal(n)) == n && CanonicalDigits(Decimal(n))
    ensures n > 0 ==> Decimal(n)[0] != '0'
  {
    if n >= 10 {
      DecimalValue(n / 10);
      var s := Decimal(n);
      assert s[..|s| - 1] == Decimal(n / 10);
    } else {
      assert Decimal(n)[..0] == [];
    }
  }

  lemma {:induction false} ValueDecimal(s: string)
    requires CanonicalDigits(s)
    ensures Decimal(DigitsValue(s)) == s
    ensures s[0] != '0' ==> DigitsValue(s) > 0
  {
    var init, last := s[..|s| - 1], s[|s| - 1];
    assert s == init + [last];
    if init == [] {
      assert DigitsValue(init) == 0;
    } else {
      ValueDecimal(init);
    }
  }

  // ---------- every spelling of a number ----------

  function Zeros(n: nat): string {
    seq(n, _ => '0')
  }

  /** What `parse::<usize>` reads as `n`: a plus sign or none, leading zeros, and the digits. */
  function Spelling(n: nat, signed: bool, zeros: nat): string {
    (if signed then "+" else "") + Zeros(zeros) + Decimal(n)
  }

  lemma {:induction false} ZeroInFront(s: string)
    requires AllDigits(s)
    ensures DigitsValue("0" + s) == DigitsValue(s)
  {
    var t := "0" + s;
    if s == [] {
      assert t[..|t| - 1] == [];
    } else {
      ZeroInFront(s[..|s| - 1]);
      assert t[..|t| - 1] == "0" + s[..|s| - 1];
    }
  }

  lemma {:induction false} ZerosInFront(s: string, zeros: nat)
    requires AllDigits(s)
    ensures AllDigits(Zeros(zeros) + s) && DigitsValue(Zeros(zeros) + s) == DigitsValue(s)
  {
    if zeros == 0 {
      assert Zeros(0) + s == s;
    } else {
      ZerosInFront(s, zeros - 1);
      ZeroInFront(Zeros(zeros - 1) + s);
      assert Zeros(zeros) + s == "0" + (Zeros(zeros - 1) + s);
    }
  }

  lemma {:induction false} StripZeros(s: string) returns (zeros: nat)
    requires s != [] && AllDigits(s)
    ensures s == Zeros(zeros) + Decimal(DigitsValue(s))
  {
    hide Decimal, DigitsValue;
    if CanonicalDigits(s) {
      zeros := 0;
      ValueDecimal(s);
    } else {
      var rest := StripZeros(s[1..]);
      ZeroInFront(s[1..]);
      assert s == "0" + s[1..];
      zeros := rest + 1;
    }
  }

  /** A text reads as index `n` exactly when it is one of the spellings of `n` and `n` fits. */
  lemma ParseUsizeExactly(s: string, n: nat)
    ensures ParseUsize(s) == Some(n) <==> n <= USIZE_MAX && exists signed, zeros :: s == Spelling(n, signed, zeros)
  {
    hide Spelling, ParseUsize;
    if ParseUsize(s) == Some(n) {
      var signed, zeros := ParsedSpelling(s);
      assert s == Spelling(n, signed, zeros);
    }
    if n <= USIZE_MAX {
      forall signed, zeros | s == Spelling(n, signed, zeros)
        ensures ParseUsize(s) == Some(n)
      {
        ParseSpelling(n, signed, zeros);
      }
    }
  }

  lemma ParsedSpelling(s: string) returns (signed: bool, zeros: nat)
    requires ParseUsize(s).Some?
    ensures ParseUsize(s).value <= USIZE_MAX && s == Spelling(ParseUsize(s).value, signed, zeros)
  {
    hide Decimal, DigitsValue, Zeros;
    signed := s[0] == '+';
    zeros := StripZeros(if signed then s[1..] else s);
    assert signed ==> s == "+" + s[1..];
  }

  lemma ParseSpelling(n: nat, signed: bool, zeros: nat)
    requires n <= USIZE_MAX
    ensures ParseUsize(Spelling(n, signed, zeros)) == Some(n)
  {
    var digits := Zeros(zeros) + Decimal(n);
    ZerosInFront(Decimal(n), zeros);
    DecimalValue(n);
    if signed {
      assert Spelling(n, signed, zeros)[1..] == digits;
    } else {
      assert Spelling(n, signed, zeros) == digits && IsDigit(digits[0]);
    }
  }

  // ---------- bytes and letters ----------

  /** Bytes a character takes in UTF-8 (section 3 of RFC 3629). */
  function Utf8Width(c: char): (w: nat)
    ensures 1 <= w <= 4
  {
    if c as int < 0x80 then 1
    else if c as int < 0x800 then 2
    else if c as int < 0x10000 then 3
    else 4
  }

  /** Rust's `str::len`, which counts bytes. */
  function Utf8Len(s: string): nat {
    if s == [] then 0 else Utf8Width(s[0]) + Utf8Len(s[1..])
  }

  lemma {:induction false} Utf8LenAppend(a: string, b: string)
    ensures Utf8Len(a + b) == Utf8Len(a) + Utf8Len(b)
  {
    if a == "" {
      assert a + b == b;
    } else {
      Utf8LenAppend(a[1..], b);
      assert (a + b)[1..] == a[1..] + b;
    }
  }

  lemma {:induction false} Utf8LenAscii(s: string)
    requires forall i :: 0 <= i < |s| ==> s[i] as int < 0x80
    ensures Utf8Len(s) == |s|
  {
    if s != "" {
      Utf8LenAscii(s[1..]);
    }
  }

  function LowerChar(c: char): char {
    if 'A' <= c <= 'Z' then (c as int + 32) as char else c
  }

  function Lower(s: string): (r: string)
    ensures |r| == |s| && forall i :: 0 <= i < |s| ==> r[i] == LowerChar(s[i])
  {
    seq(|s|, i requires 0 <= i < |s| => LowerChar(s[i]))
  }

  function UpperChar(c: char): char {
    if 'a' <= c <= 'z' then (c as int - 32) as char else c
  }

  /** Rust's `to_ascii_uppercase`. */
  function Upper(s: string): string {
    seq(|s|, i requires 0 <= i < |s| => UpperChar(s[i]))
  }

  /** Rust's `eq_ignore_ascii_case`. */
  predicate EqIgnoreCase(a: string, b: string) {
    Lower(a) == Lower(b)
  }

  /** Equal length, and each character equal or the same ASCII letter in the other case. */
  lemma SameButForCase(a: string, b: string)
    ensures EqIgnoreCase(a, b)
       <==> && |a| == |b|
            && forall i :: 0 <= i < |a| ==>
                 || a[i] == b[i]
                 || ('A' <= a[i] <= 'Z' && b[i] as int == a[i] as int + 32)
                 || ('A' <= b[i] <= 'Z' && a[i] as int == b[i] as int + 32)
  {
    if EqIgnoreCase(a, b) {
      forall i | 0 <= i < |a|
        ensures LowerChar(a[i]) == LowerChar(b[i])
      {
        assert Lower(a)[i] == Lower(b)[i];
      }
    }
  }
}
