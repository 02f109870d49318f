/** The requests scripts send to the BMC (`BmcRequest`, `dispatch`): whatever a script does to a
    request, the credentials that leave with it are the inbound request's own. */
module Outbound {
  import opened Wrappers
  import opened Text
  import opened LinkRewrite

  const HOP_BY_HOP: seq<string> :=
    ["connection", "keep-alive", "proxy-authenticate", "proxy-authorization",
     "te", "trailer", "transfer-encoding", "upgrade"]

  const REDACTED: seq<string> :=
    ["authorization", "proxy-authorization", "x-auth-token", "cookie", "set-cookie"]

  const RELAYED: seq<string> := ["authorization", "x-auth-token", "odata-version"]

  const CONTENT_TYPE: string := "content-type"

  /** What a script may never name, compared without regard to case. */
  predicate Forbidden(name: string) {
    Lower(name) in REDACTED || Lower(name) in HOP_BY_HOP || Lower(name) == "host" || Lower(name) == "content-length"
  }

  predicate ScriptMaySet(name: string) {
    !Forbidden(name)
  }

  /** `//host/path` is refused, since it reads like an escape. */
  predicate IsAbsolute(path: string) {
    path != "" && path[0] == '/' && !(|path| > 1 && path[1] == '/')
  }

  // ---------- the request under assembly ----------

  type Pair = (string, HeaderValue)

  /** Why a request never reaches the network. */
  datatype DispatchError = NotAbsolute | NotAMethod

  class BmcRequest {
    var verb: string
    var path: string
    var body: Option<seq<int>>
    var contentType: Option<string>
    var headers: seq<Pair>

    /** The request never holds a header a script may not set, not even between two calls. */
    ghost predicate Clean()
      reads this
    {
      forall i :: 0 <= i < |headers| ==> ScriptMaySet(headers[i].0)
    }

    /** `bmc::request`, on a path already found absolute; the method is upper-cased. */
    constructor Empty(verb: string, path: string)
      requires IsAbsolute(path)
      ensures Clean() && this.path == path && |this.verb| == |verb|
      ensures forall i :: 0 <= i < |verb| ==>
                this.verb[i] == if 'a' <= verb[i] <= 'z' then (verb[i] as int - 32) as char else verb[i]
      ensures headers == [] && body == None && contentType == None
    {
      this.verb, this.path := Upper(verb), path;
      body, contentType, headers := None, None, [];
    }

    /** `bmc::inbound`: the inbound request, its headers filtered as they are taken over. */
    constructor Inbound(verb: string, path: string, body: Option<seq<int>>, contentType: Option<string>,
                        inbound: seq<Pair>)
      ensures Clean() && this.verb == verb && this.path == path
      ensures this.body == body && this.contentType == contentType
      ensures headers == Seeded(inbound)
    {
      this.verb, this.path := verb, path;
      this.body, this.contentType, headers := body, contentType, [];
      new;
      for i := 0 to |inbound|
        invariant Clean() && this.verb == verb && this.path == path
        invariant this.body == body && this.contentType == contentType
        invariant headers == Seeded(inbound[..i])
      {
        assert inbound[..i + 1][..i] == inbound[..i];
        if ScriptMaySet(inbound[i].0) && inbound[i].1.Readable? {
          headers := headers + [inbound[i]];
        }
      }
      assert inbound[..|inbound|] == inbound;
    }

    /** `json`, `text` and `base64`: a body, and a default content type. `encoded` is the body's
        bytes, or nothing where the encoder or decoder refused it. */
    method SetBody(encoded: Option<seq<int>>, defaultType: string) returns (ok: bool)
      modifies this`body, this`contentType
      ensures old(Clean()) ==> Clean()
      ensures ok == encoded.Some?
      ensures body == if ok then encoded else old(body)
      ensures contentType == if ok && old(contentType) == None then Some(defaultType) else old(contentType)
    {
      if encoded.None? {
        return false;
      }
      body := encoded;
      if contentType.None? {
        contentType := Some(defaultType);
      }
      return true;
    }

    method SetContentType(value: string)
      modifies this`contentType
      ensures old(Clean()) ==> Clean()
      ensures contentType == Some(value)
    {
      contentType := Some(value);
    }

    method SetPath(value: string) returns (ok: bool)
      modifies this`path
      ensures old(Clean()) ==> Clean()
      ensures ok == IsAbsolute(value)
      ensures path == if ok then value else old(path)
    {
      if !IsAbsolute(value) {
        return false;
      }
      path := value;
      return true;
    }

    method AddHeader(name: string, value: HeaderValue) returns (ok: bool)
      modifies this`headers
      ensures old(Clean()) ==> Clean()
      ensures ok == ScriptMaySet(name)
      ensures headers == if ok then old(headers) + [(name, value)] else old(headers)
    {
      if !ScriptMaySet(name) {
        return false;
      }
      headers := headers + [(name, value)];
      return true;
    }

    /** `dispatch` up to the network: first the path must be absolute, then the method must be one;
        otherwise this is the header map that leaves. */
    method Dispatch(inbound: Headers, validMethod: string -> bool, validName: string -> bool)
      returns (sent: Result<Headers, DispatchError>)
      ensures sent.Ok? <==> "/" <= path && !("//" <= path) && validMethod(verb)
      ensures sent == Err(NotAbsolute) <==> !("/" <= path) || "//" <= path
      ensures sent.Ok? ==> forall name ::
          Values(sent.value, name) == OutboundValues(body, contentType, headers, inbound, validName, name)
    {
      if !IsAbsolute(path) {
        return Err(NotAbsolute);
      }
      if !validMethod(verb) {
        return Err(NotAMethod);
      }
      var out := Assemble(inbound, validName);
      return Ok(out);
    }

    /** The header map `dispatch` sends: the script's headers first, then the relayed credentials
        over them, then the content type of a body. */
    method Assemble(inbound: Headers, validName: string -> bool) returns (out: Headers)
      ensures forall name :: Values(out, name) == OutboundValues(body, contentType, headers, inbound, validName, name)
    {
      var scripted := AppendScripted(headers, validName);
      out := InsertRelayed(scripted, inbound);
      if body.Some? {
        var declared := if contentType.Some? then contentType.value else "application/json";
        if Visible(declared) {
          var typed := out[CONTENT_TYPE := [Readable(declared)]];
          forall name
            ensures Values(typed, name)
                 == OutboundValues(body, contentType, headers, inbound, validName, name)
          {
            ValuesUpdate(out, CONTENT_TYPE, [Readable(declared)], name);
            assert Values(out, name) == RelayedOver(RELAYED, scripted, inbound, name);
            assert Values(scripted, name) == ScriptValues(headers, validName, name);
          }
          out := typed;
        }
      }
    }
  }

  /** The inbound headers a script-built request starts from. */
  function Seeded(inbound: seq<Pair>): seq<Pair> {
    if inbound == [] then []
    else
      var last := inbound[|inbound| - 1];
      Seeded(inbound[..|inbound| - 1]) + if ScriptMaySet(last.0) && last.1.Readable? then [last] else []
  }

  /** Appends the headers a script may send. */
  method AppendScripted(headers: seq<Pair>, validName: string -> bool) returns (out: Headers)
    ensures forall name :: Values(out, name) == ScriptValues(headers, validName, name)
  {
    out := map[];
    for i := 0 to |headers|
      invariant forall name :: Values(out, name) == ScriptValues(headers[..i], validName, name)
    {
      var (name, value) := headers[i];
      assert headers[..i + 1][..i] == headers[..i];
      if Sendable(headers[i], validName) {
        out := out[Lower(name) := Values(out, Lower(name)) + [value]];
      }
    }
    assert headers[..|headers|] == headers;
  }

  /** Inserts every relayed value, each replacing what stood under its name. */
  method InsertRelayed(scripted: Headers, inbound: Headers) returns (out: Headers)
    ensures forall name :: Values(out, name) == RelayedOver(RELAYED, scripted, inbound, name)
  {
    out := scripted;
    for i := 0 to |RELAYED|
      invariant forall name :: Values(out, name) == RelayedOver(RELAYED[..i], scripted, inbound, name)
    {
      assert RELAYED[..i + 1] == RELAYED[..i] + [RELAYED[i]];
      out := InsertAll(out, RELAYED[i], Values(inbound, RELAYED[i]));
    }
    assert RELAYED[..|RELAYED|] == RELAYED;
  }

  method InsertAll(headers: Headers, name: string, values: seq<HeaderValue>) returns (out: Headers)
    ensures forall other :: Values(out, other) == Inserted(headers, name, values, other)
  {
    out := headers;
    for j := 0 to |values|
      invariant forall other :: Values(out, other) == Inserted(headers, name, values[..j], other)
    {
      assert LastOf(values[..j + 1]) == values[j];
      var next := out[name := [values[j]]];
      forall other
        ensures Values(next, other) == Inserted(headers, name, values[..j + 1], other)
      {
        ValuesUpdate(out, name, [values[j]], other);
        assert Values(out, other) == Inserted(headers, name, values[..j], other);
      }
      out := next;
    }
    assert values[..|values|] == values;
  }

  function Inserted(headers: Headers, name: string, values: seq<HeaderValue>, other: string): seq<HeaderValue> {
    if other == name && values != [] then [LastOf(values)] else Values(headers, other)
  }

  function RelayedOver(relayed: seq<string>, scripted: Headers, inbound: Headers, name: string): seq<HeaderValue> {
    if name in relayed && Values(inbound, name) != [] then [LastOf(Values(inbound, name))]
    else Values(scripted, name)
  }

  function Values(headers: Headers, name: string): seq<HeaderValue> {
    if name in headers then headers[name] else []
  }

  lemma ValuesUpdate(headers: Headers, name: string, values: seq<HeaderValue>, other: string)
    ensures Values(headers[name := values], other) == if other == name then values else Values(headers, other)
  {
  }

  function LastOf(values: seq<HeaderValue>): HeaderValue
    requires values != []
  {
    values[|values| - 1]
  }

  /** Whether `dispatch` lets a script's header through. */
  predicate Sendable(header: Pair, validName: string -> bool) {
    ScriptMaySet(header.0) && validName(header.0) && header.1.Readable? && Visible(header.1.text)
  }

  /** The script's own values under a name, in the order it added them. */
  function ScriptValues(headers: seq<Pair>, validName: string -> bool, name: string): seq<HeaderValue> {
    if headers == [] then []
    else
      var last := headers[|headers| - 1];
      ScriptValues(headers[..|headers| - 1], validName, name)
      + if Sendable(last, validName) && Lower(last.0) == name then [last.1] else []
  }

  /** The values that leave under each name: the declared content type of a body, else the last
      relayed value, else the script's. */
  function OutboundValues(body: Option<seq<int>>, contentType: Option<string>, headers: seq<Pair>,
                          inbound: Headers, validName: string -> bool, name: string): seq<HeaderValue>
  {
    var declared := if contentType.Some? then contentType.value else "application/json";
    if name == CONTENT_TYPE && body.Some? && Visible(declared) then [Readable(declared)]
    else if name in RELAYED && Values(inbound, name) != [] then [LastOf(Values(inbound, name))]
    else ScriptValues(headers, validName, name)
  }

  lemma {:induction false} ForbiddenNeverScripted(headers: seq<Pair>, validName: string -> bool, name: string)
    requires Lower(name) == name && Forbidden(name)
    ensures ScriptValues(headers, validName, name) == []
  {
    if headers != [] {
      ForbiddenNeverScripted(headers[..|headers| - 1], validName, name);
    }
  }

  /** Whatever a script has put into a request, each credential that leaves is the last value the
      inbound request carried under that name, or absent if it carried none. */
  lemma CredentialsAreInbound(body: Option<seq<int>>, contentType: Option<string>, headers: seq<Pair>,
                              inbound: Headers, validName: string -> bool, name: string)
    requires name == "authorization" || name == "x-auth-token"
    ensures OutboundValues(body, contentType, headers, inbound, validName, name)
         == if Values(inbound, name) == [] then [] else [LastOf(Values(inbound, name))]
  {
    assert REDACTED[0] == "authorization" && REDACTED[2] == "x-auth-token";
    assert RELAYED[0] == "authorization" && RELAYED[1] == "x-auth-token";
    assert Lower(name) == name;
    ForbiddenNeverScripted(headers, validName, name);
  }

  /** No other forbidden name leaves at all: not cookies, hop-by-hop headers, host or length. */
  lemma ForbiddenNeverLeaves(body: Option<seq<int>>, contentType: Option<string>, headers: seq<Pair>,
                             inbound: Headers, validName: string -> bool, name: string)
    requires Lower(name) == name && Forbidden(name) && name != "authorization" && name != "x-auth-token"
    ensures OutboundValues(body, contentType, headers, inbound, validName, name) == []
  {
    ForbiddenNeverScripted(headers, validName, name);
    assert |"odata-version"| == 13 && |CONTENT_TYPE| == 12;
    assert name != "odata-version" && name != CONTENT_TYPE by {
      assert name in REDACTED || name in HOP_BY_HOP || name == "host" || name == "content-length";
    }
  }

  // ---------- what leaves, name by name ----------

  /** What a script may never name. */
  predicate IsReserved(lower: string) {
    || lower == "authorization" || lower == "proxy-authorization" || lower == "x-auth-token"
    || lower == "cookie" || lower == "set-cookie"
    || lower == "connection" || lower == "keep-alive" || lower == "proxy-authenticate" || lower == "te"
    || lower == "trailer" || lower == "transfer-encoding" || lower == "upgrade"
    || lower == "host" || lower == "content-length"
  }

  lemma ForbiddenExactly(name: string)
    ensures ScriptMaySet(name) <==> !IsReserved(Lower(name))
  {
    var lower := Lower(name);
    InRedacted(lower);
    InHopByHop(lower);
  }

  lemma InRedacted(lower: string)
    ensures lower in REDACTED
       <==> lower == "authorization" || lower == "proxy-authorization" || lower == "x-auth-token"
            || lower == "cookie" || lower == "set-cookie"
  {
  }

  lemma InHopByHop(lower: string)
    ensures lower in HOP_BY_HOP
       <==> lower == "connection" || lower == "keep-alive" || lower == "proxy-authenticate"
            || lower == "proxy-authorization" || lower == "te" || lower == "trailer"
            || lower == "transfer-encoding" || lower == "upgrade"
  {
  }

  lemma InRelayed(name: string)
    ensures name in RELAYED <==> name == "authorization" || name == "x-auth-token" || name == "odata-version"
  {
  }

  /** The pair was added under this name, in whatever case, with a name and a value that can be
      sent: visible ASCII and tabs. */
  predicate AddedUnder(pair: Pair, validName: string -> bool, name: string) {
    && Lower(pair.0) == name && validName(pair.0) && pair.1.Readable?
    && forall i :: 0 <= i < |pair.1.text| ==> pair.1.text[i] == '\t' || ' ' <= pair.1.text[i] <= '~'
  }

  /** `at` picks out, in order, exactly the pairs added under the name, and these are their values. */
  ghost predicate Picks(at: seq<nat>, headers: seq<Pair>, validName: string -> bool, name: string,
                        values: seq<HeaderValue>)
  {
    && (forall j, k :: 0 <= j < k < |at| ==> at[j] < at[k])
    && (forall i: nat :: i in at <==> i < |headers| && AddedUnder(headers[i], validName, name))
    && |values| == |at| && forall k :: 0 <= k < |at| ==> at[k] < |headers| && values[k] == headers[at[k]].1
  }

  lemma {:induction false} ScriptedInOrder(headers: seq<Pair>, validName: string -> bool, name: string)
      returns (at: seq<nat>)
    requires !IsReserved(name)
    ensures Picks(at, headers, validName, name, ScriptValues(headers, validName, name))
  {
    hide AddedUnder, IsReserved, Sendable, Picks;
    if headers == [] {
      at := [];
      NothingPicked(validName, name);
    } else {
      var init, last := headers[..|headers| - 1], headers[|headers| - 1];
      var before := ScriptedInOrder(init, validName, name);
      SendableExactly(last, validName, name);
      at := PickLast(before, init, last, validName, name, ScriptValues(init, validName, name));
      assert init + [last] == headers;
    }
  }

  lemma NothingPicked(validName: string -> bool, name: string)
    ensures Picks([], [], validName, name, [])
  {
  }

  lemma PickLast(before: seq<nat>, init: seq<Pair>, last: Pair, validName: string -> bool, name: string,
      values: seq<HeaderValue>) returns (at: seq<nat>)
    requires Picks(before, init, validName, name, values)
    ensures Picks(at, init + [last], validName, name,
                  values + if AddedUnder(last, validName, name) then [last.1] else [])
  {
    hide AddedUnder, Picks;
    if AddedUnder(last, validName, name) {
      at := before + [|init|];
      PickOneMore(before, init, last, validName, name, values);
    } else {
      at := before;
      PassOver(before, init, last, validName, name, values);
      assert values + [] == values;
    }
  }

  lemma PickOneMore(before: seq<nat>, init: seq<Pair>, last: Pair, validName: string -> bool, name: string,
      values: seq<HeaderValue>)
    requires Picks(before, init, validName, name, values) && AddedUnder(last, validName, name)
    ensures Picks(before + [|init|], init + [last], validName, name, values + [last.1])
  {
    hide AddedUnder;
    var n, at, headers := |init|, before + [|init|], init + [last];
    forall k | 0 <= k < |before|
      ensures before[k] < n && headers[before[k]] == init[before[k]]
    {
      assert before[k] in before;
    }
    forall i: nat
      ensures i in at <==> i < |headers| && AddedUnder(headers[i], validName, name)
    {
      assert i in at <==> i in before || i == n;
      if i < n {
        assert headers[i] == init[i];
      }
    }
  }

  lemma PassOver(at: seq<nat>, init: seq<Pair>, last: Pair, validName: string -> bool, name: string,
      values: seq<HeaderValue>)
    requires Picks(at, init, validName, name, values) && !AddedUnder(last, validName, name)
    ensures Picks(at, init + [last], validName, name, values)
  {
    hide AddedUnder;
    assert forall i: nat :: i < |init| ==> (init + [last])[i] == init[i];
    assert forall k :: 0 <= k < |at| ==> at[k] in at;
  }

  lemma SendableExactly(pair: Pair, validName: string -> bool, name: string)
    requires !IsReserved(name)
    ensures AddedUnder(pair, validName, name) <==> Sendable(pair, validName) && Lower(pair.0) == name
  {
    hide IsReserved, Forbidden;
    ForbiddenExactly(pair.0);
  }

  /** A name that is not reserved leaves with what the script added under it, every sendable value
      and in the order added, unless the body's content type or a relayed value takes its place. */
  lemma AddedLeaves(body: Option<seq<int>>, contentType: Option<string>, headers: seq<Pair>, inbound: Headers,
      validName: string -> bool, name: string) returns (at: seq<nat>)
    requires !IsReserved(name)
    requires name == "content-type" ==> body == None
    requires name == "odata-version" ==> Values(inbound, name) == []
    ensures Picks(at, headers, validName, name,
                  OutboundValues(body, contentType, headers, inbound, validName, name))
  {
    hide Picks, ScriptValues;
    InRelayed(name);
    at := ScriptedInOrder(headers, validName, name);
  }

  /** A reserved name leaves with nothing, but for the two credentials, which leave with the last
      value of the inbound request. */
  lemma ReservedLeaves(body: Option<seq<int>>, contentType: Option<string>, headers: seq<Pair>, inbound: Headers,
      validName: string -> bool, name: string)
    requires IsReserved(name)
    ensures OutboundValues(body, contentType, headers, inbound, validName, name)
         == if (name == "authorization" || name == "x-auth-token") && Values(inbound, name) != []
            then [Values(inbound, name)[|Values(inbound, name)| - 1]] else []
  {
    hide ScriptValues, IsReserved, Forbidden;
    ReservedIsLower(name);
    ForbiddenExactly(name);
    if name == "authorization" || name == "x-auth-token" {
      CredentialsAreInbound(body, contentType, headers, inbound, validName, name);
    } else {
      ForbiddenNeverLeaves(body, contentType, headers, inbound, validName, name);
    }
  }

  lemma ReservedIsLower(name: string)
    requires IsReserved(name)
    ensures Lower(name) == name
  {
    hide Lower;
    if name in REDACTED || name == "host" || name == "content-length" {
      RedactedIsLower(name);
    } else {
      InRedacted(name);
      InHopByHop(name);
      HopByHopIsLower(name);
    }
  }

  lemma RedactedIsLower(name: string)
    requires name in REDACTED || name == "host" || name == "content-length"
    ensures Lower(name) == name
  {
  }

  lemma HopByHopIsLower(name: string)
    requires name in HOP_BY_HOP
    ensures Lower(name) == name
  {
  }

  /** A body leaves with its declared type, or as JSON; a relayed protocol version replaces the
      script's. */
  lemma TypeAndVersionLeave(body: seq<int>, contentType: Option<string>, headers: seq<Pair>, inbound: Headers,
      validName: string -> bool)
    ensures OutboundValues(Some(body), None, headers, inbound, validName, "content-type")
         == [Readable("application/json")]
    ensures contentType.Some? && Visible(contentType.value) ==>
              OutboundValues(Some(body), contentType, headers, inbound, validName, "content-type")
              == [Readable(contentType.value)]
    ensures Values(inbound, "odata-version") != [] ==>
              OutboundValues(Some(body), contentType, headers, inbound, validName, "odata-version")
              == [Values(inbound, "odata-version")[|Values(inbound, "odata-version")| - 1]]
  {
    hide ScriptValues;
    InRelayed("odata-version");
    assert |"odata-version"| == 13 && |CONTENT_TYPE| == 12;
  }
}
