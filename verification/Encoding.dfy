/** The compact JSON encoding the store measures (`serde_json::to_vec`), written out as text, and
    the length the store's limit is checked against. */
module Encoding {
  import opened Wrappers
  import opened Text
  import opened Json
  import opened StoreModel

  function HexDigit(n: nat): char
    requires n < 16
  {
    "0123456789abcdef"[n]
  }

  /** One character inside a string: the two-character escapes, six characters for any other
      control character, and the character itself otherwise (section 7 of RFC 8259). */
  function Escaped(c: char): string {
    if c == '"' then "\\\""
    else if c == '\\' then "\\\\"
    else if c == '\n' then "\\n"
    else if c == '\r' then "\\r"
    else if c == '\t' then "\\t"
    else if c as int == 8 then "\\b"
    else if c as int == 12 then "\\f"
    else if c as int < 0x20 then "\\u00" + [HexDigit(c as int / 16), HexDigit(c as int % 16)]
    else [c]
  }

  function EscapedAll(s: string): string {
    if s == "" then "" else Escaped(s[0]) + EscapedAll(s[1..])
  }

  function Quoted(s: string): string {
    "\"" + EscapedAll(s) + "\""
  }

  function Commaed(parts: seq<string>): string {
    if parts == [] then "" else Join(parts, ',')
  }

  /** Every key once, in some order. */
  ghost predicate Enumerates(keys: seq<string>, members: map<string, Json>) {
    && |keys| == |members|
    && (forall i :: 0 <= i < |keys| ==> keys[i] in members)
    && forall i, j :: 0 <= i < j < |keys| ==> keys[i] != keys[j]
  }

  function Fields(keys: seq<string>, parts: seq<string>): (fields: seq<string>)
    requires |keys| == |parts|
    ensures |fields| == |keys|
  {
    seq(|keys|, i requires 0 <= i < |keys| => Quoted(keys[i]) + ":" + parts[i])
  }

  /** The text is a compact encoding of the value, its keys in whatever order. */
  ghost predicate IsEncoding(text: string, value: Json)
    decreases value
  {
    match value
    case Null => text == "null"
    case Bool(b) => text == if b then "true" else "false"
    case Num(token) => text == token
    case Str(s) => text == Quoted(s)
    case Arr(items) =>
      exists parts: seq<string> :: |parts| == |items| && text == "[" + Commaed(parts) + "]"
        && forall i :: 0 <= i < |items| ==> IsEncoding(parts[i], items[i])
    case Obj(members) =>
      exists keys, parts: seq<string> :: Enumerates(keys, members) && |parts| == |keys|
        && text == "{" + Commaed(Fields(keys, parts)) + "}"
        && forall i :: 0 <= i < |keys| ==> IsEncoding(parts[i], members[keys[i]])
  }

  // ---------- its length ----------

  lemma EscapedLength(c: char)
    ensures Utf8Len(Escaped(c)) == EncodedCharLen(c)
  {
    var text := Escaped(c);
    if c as int < 0x20 || c == '"' || c == '\\' {
      AsciiEscape(c);
      Utf8LenAscii(text);
    } else {
      assert text[1..] == "";
    }
  }

  lemma AsciiEscape(c: char)
    requires c as int < 0x20 || c == '"' || c == '\\'
    ensures forall i :: 0 <= i < |Escaped(c)| ==> Escaped(c)[i] as int < 0x80
  {
    assert forall n :: 0 <= n < 16 ==> HexDigit(n) as int < 0x80;
  }

  lemma {:induction false} EscapedAllLength(s: string)
    ensures Utf8Len(EscapedAll(s)) == EncodedCharsLen(s)
  {
    hide Utf8Len, Escaped;
    if s == "" {
      Utf8LenAscii("");
    } else {
      EscapedAllLength(s[1..]);
      EscapedLength(s[0]);
      Utf8LenAppend(Escaped(s[0]), EscapedAll(s[1..]));
    }
  }

  lemma WrappedLength(open: string, inner: string, close: string)
    requires |open| == |close| == 1 && open[0] as int < 0x80 && close[0] as int < 0x80
    ensures Utf8Len(open + inner + close) == Utf8Len(inner) + 2
  {
    hide Utf8Len;
    Utf8LenAppend(open, inner);
    Utf8LenAppend(open + inner, close);
    Utf8LenAscii(open);
    Utf8LenAscii(close);
  }

  lemma QuotedLength(s: string)
    ensures Utf8Len(Quoted(s)) == EncodedStringLen(s)
  {
    hide Utf8Len;
    EscapedAllLength(s);
    WrappedLength("\"", EscapedAll(s), "\"");
  }

  ghost function LengthOf(parts: seq<string>): nat {
    if parts == [] then 0 else Utf8Len(parts[0]) + LengthOf(parts[1..])
  }

  lemma {:induction false} CommaedLength(parts: seq<string>)
    ensures Utf8Len(Commaed(parts)) == Commas(|parts|) + LengthOf(parts)
  {
    hide Utf8Len;
    Utf8LenAscii("");
    if |parts| == 1 {
      assert parts[1..] == [];
    } else if |parts| > 1 {
      CommaedLength(parts[1..]);
      Utf8LenAscii([',']);
      Utf8LenAppend(parts[0], [',']);
      Utf8LenAppend(parts[0] + [','], Join(parts[1..], ','));
    }
  }

  lemma {:induction false} ItemsLength(parts: seq<string>, items: seq<Json>)
    requires |parts| == |items|
    requires forall i :: 0 <= i < |items| ==> Utf8Len(parts[i]) == EncodedLen(items[i])
    ensures LengthOf(parts) == EncodedItemsLen(items)
  {
    hide Utf8Len, EncodedLen;
    if items != [] {
      ItemsLength(parts[1..], items[1..]);
    }
  }

  /** What the fields of an object add up to. */
  ghost function FieldLengths(members: map<string, Json>): map<string, nat> {
    map k | k in members :: EncodedStringLen(k) + 1 + EncodedLen(members[k])
  }

  lemma FieldLength(key: string, part: string)
    ensures Utf8Len(Quoted(key) + ":" + part) == EncodedStringLen(key) + 1 + Utf8Len(part)
  {
    hide Utf8Len, Quoted;
    QuotedLength(key);
    Utf8LenAscii(":");
    Utf8LenAppend(Quoted(key), ":");
    Utf8LenAppend(Quoted(key) + ":", part);
  }

  lemma {:induction false} FieldsLength(keys: seq<string>, parts: seq<string>, members: map<string, Json>)
    requires Enumerates(keys, members) && |parts| == |keys|
    requires forall i :: 0 <= i < |keys| ==> Utf8Len(parts[i]) == EncodedLen(members[keys[i]])
    ensures LengthOf(Fields(keys, parts)) == Total(FieldLengths(members))
    decreases |keys|
  {
    hide Utf8Len, EncodedLen, EncodedStringLen, Quoted, Total;
    if keys == [] {
      assert members == map[] by { assert |members| == 0; }
      EmptyTotal();
      assert FieldLengths(members) == map[];
    } else {
      var key, rest := keys[0], members - {keys[0]};
      RestEnumerated(keys, members);
      FieldsLength(keys[1..], parts[1..], rest);
      FieldLength(key, parts[0]);
      TotalRemove(FieldLengths(members), key);
      assert FieldLengths(members) - {key} == FieldLengths(rest);
      assert Fields(keys, parts)[1..] == Fields(keys[1..], parts[1..]);
    }
  }

  lemma EmptyTotal()
    ensures Total(map[]) == 0
  {
  }

  lemma RestEnumerated(keys: seq<string>, members: map<string, Json>)
    requires Enumerates(keys, members) && keys != []
    ensures Enumerates(keys[1..], members - {keys[0]})
  {
    var rest := members - {keys[0]};
    assert rest.Keys == members.Keys - {keys[0]};
    assert |rest| == |rest.Keys| && |members| == |members.Keys|;
  }

  /** Whatever order an encoder takes the keys in, its text has the length the store checks. */
  lemma {:induction false} EncodingLength(text: string, value: Json)
    requires IsEncoding(text, value)
    ensures Utf8Len(text) == EncodedLen(value)
    decreases value
  {
    hide Utf8Len, Commaed, Fields, Enumerates;
    match value {
      case Null => Utf8LenAscii("null");
      case Bool(b) =>
        Utf8LenAscii("true");
        Utf8LenAscii("false");
      case Num(_) =>
      case Str(s) => QuotedLength(s);
      case Arr(items) =>
        var parts: seq<string> :| |parts| == |items| && text == "[" + Commaed(parts) + "]"
          && forall i :: 0 <= i < |items| ==> IsEncoding(parts[i], items[i]);
        forall i | 0 <= i < |items|
          ensures Utf8Len(parts[i]) == EncodedLen(items[i])
        {
          EncodingLength(parts[i], items[i]);
        }
        ArrayLength(parts, items);
      case Obj(members) =>
        ObjectEncodingLength(text, members);
    }
  }

  lemma ArrayLength(parts: seq<string>, items: seq<Json>)
    requires |parts| == |items|
    requires forall i :: 0 <= i < |items| ==> Utf8Len(parts[i]) == EncodedLen(items[i])
    ensures Utf8Len("[" + Commaed(parts) + "]") == EncodedLen(Arr(items))
  {
    hide Utf8Len, Commaed;
    ItemsLength(parts, items);
    CommaedLength(parts);
    WrappedLength("[", Commaed(parts), "]");
  }

  lemma {:induction false} ObjectEncodingLength(text: string, members: map<string, Json>)
    requires IsEncoding(text, Obj(members))
    ensures Utf8Len(text) == EncodedLen(Obj(members))
    decreases Obj(members), 0
  {
    hide Utf8Len, Commaed, Fields, EncodedLen;
    var keys, parts: seq<string> :| Enumerates(keys, members) && |parts| == |keys|
      && text == "{" + Commaed(Fields(keys, parts)) + "}"
      && forall i :: 0 <= i < |keys| ==> IsEncoding(parts[i], members[keys[i]]);
    forall i | 0 <= i < |keys|
      ensures Utf8Len(parts[i]) == EncodedLen(members[keys[i]])
    {
      EncodingLength(parts[i], members[keys[i]]);
    }
    FieldsLength(keys, parts, members);
    CommaedLength(Fields(keys, parts));
    WrappedLength("{", Commaed(Fields(keys, parts)), "}");
    ObjectLength(members);
  }

  lemma ObjectLength(members: map<string, Json>)
    ensures EncodedLen(Obj(members)) == 2 + Commas(|members|) + Total(FieldLengths(members))
  {
  }

  /** Every value has an encoding. */
  lemma {:induction false} EncodingExists(value: Json) returns (text: string)
    ensures IsEncoding(text, value)
    decreases value
  {
    hide Commaed, Fields, Enumerates, Quoted;
    match value {
      case Null => text := "null";
      case Bool(b) => text := if b then "true" else "false";
      case Num(token) => text := token;
      case Str(s) => text := Quoted(s);
      case Arr(items) =>
        var parts: seq<string> := [];
        for i := 0 to |items|
          invariant |parts| == i && forall j :: 0 <= j < i ==> IsEncoding(parts[j], items[j])
        {
          var part := EncodingExists(items[i]);
          parts := parts + [part];
        }
        text := "[" + Commaed(parts) + "]";
      case Obj(members) =>
        var keys := KeysOf(members);
        var parts: seq<string> := [];
        EnumeratedAreThere(keys, members);
        for i := 0 to |keys|
          invariant |parts| == i && forall j :: 0 <= j < i ==> IsEncoding(parts[j], members[keys[j]])
        {
          var part := EncodingExists(members[keys[i]]);
          parts := parts + [part];
        }
        text := "{" + Commaed(Fields(keys, parts)) + "}";
    }
  }

  lemma EnumeratedAreThere(keys: seq<string>, members: map<string, Json>)
    requires Enumerates(keys, members)
    ensures forall i :: 0 <= i < |keys| ==> keys[i] in members
  {
  }

  lemma {:induction false} KeysOf(members: map<string, Json>) returns (keys: seq<string>)
    ensures Enumerates(keys, members)
    decreases |members|
  {
    if members == map[] {
      keys := [];
    } else {
      var key :| key in members;
      var rest := members - {key};
      assert rest.Keys == members.Keys - {key};
      assert |rest| == |rest.Keys| && |members| == |members.Keys|;
      var others := KeysOf(rest);
      keys := [key] + others;
    }
  }
}
