/** Endpoint identifiers of the "dtn" and "ipn" schemes and their CBOR form (section 4.2.5.1 of RFC 9171). */
module Endpoint {
  import opened Bytes
  import opened Cbor

  const SLASH: byte := 47
  const NEWLINE: byte := 10
  const DTN_SCHEME: u64 := 1
  const IPN_SCHEME: u64 := 2
  const NONE_SSP: bytes := [110, 111, 110, 101] // "none"
  const DTN_PREFIX: bytes := [100, 116, 110, 58] // "dtn:"

  const MAX_NAME := 0x4_0000_0000_0000
  type Name = s: bytes | |s| <= MAX_NAME

  /** `Unset` is the zero value, an identifier without an endpoint. */
  datatype Eid = Unset | DtnNone | Dtn(node: Name, demux: Name) | Ipn(number: u64, service: u64)

  /** The characters a dtn node name may be made of: `[\w-._~!$&'()*+,;=]`. */
  predicate NameChar(c: byte) {
    || 48 <= c <= 57 || 65 <= c <= 90 || 97 <= c <= 122 || c == 95
    || 39 <= c <= 46 || c == 33 || c == 36 || c == 38 || c == 59 || c == 61 || c == 126
  }

  predicate IsNodeName(s: bytes) {
    s != [] && forall i :: 0 <= i < |s| ==> NameChar(s[i])
  }

  /** The scheme-specific part `//node/demux`. */
  function Ssp(node: bytes, demux: bytes): (s: bytes) {
    [SLASH, SLASH] + node + [SLASH] + demux
  }

  /** The pattern `//name/` occurs at some position of `s`: the validity check does not anchor it. */
  predicate MatchesSomewhere(s: bytes) {
    exists i, j :: 0 <= i && i + 2 < j < |s| && s[i] == SLASH && s[j] == SLASH && s[i + 1] == SLASH && IsNodeName(s[i + 2..j])
  }

  predicate EidValid(e: Eid) {
    match e
    case Unset => false
    case DtnNone => true
    case Dtn(node, demux) => MatchesSomewhere(Ssp(node, demux))
    case Ipn(number, service) => number >= 1 && service >= 1
  }

  /** What the anchored pattern accepts: the endpoints that a parser can return. */
  predicate EidWire(e: Eid) {
    && !e.Unset?
    && (e.Dtn? ==> IsNodeName(e.node) && NEWLINE !in e.demux)
  }

  lemma WireDtnIsValid(e: Eid)
    requires e.Dtn? && EidWire(e)
    ensures EidValid(e)
  {
    var s := Ssp(e.node, e.demux);
    assert s[0 + 2..2 + |e.node|] == e.node;
    assert s[0] == SLASH && s[0 + 1] == SLASH && s[2 + |e.node|] == SLASH;
  }

  lemma OnlyThreeSlashes(node: Name, demux: Name)
    requires SLASH !in node && SLASH !in demux
    ensures var s := Ssp(node, demux);
            && s[2..2 + |node|] == node
            && forall k :: 0 <= k < |s| ==> (s[k] == SLASH <==> k == 0 || k == 1 || k == 2 + |node|)
  {
    var s := Ssp(node, demux);
    assert forall k :: 2 <= k < 2 + |node| ==> s[k] == node[k - 2];
    assert forall k :: 2 + |node| < k < |s| ==> s[k] == demux[k - 3 - |node|];
  }

  /** Where no other slashes are about, the check accepts exactly the proper node names. */
  lemma ValidWithoutSlashes(node: Name, demux: Name)
    requires SLASH !in node && SLASH !in demux
    ensures EidValid(Dtn(node, demux)) <==> IsNodeName(node)
  {
    assert IsNodeName(node) ==> node != [];
    hide IsNodeName;
    OnlyThreeSlashes(node, demux);
    var s, n := Ssp(node, demux), |node|;
    assert |s| == n + |demux| + 3;
    hide Ssp;
    if MatchesSomewhere(s) {
      var i, j :| 0 <= i && i + 2 < j < |s| && s[i] == SLASH && s[j] == SLASH && s[i + 1] == SLASH && IsNodeName(s[i + 2..j]);
      assert i == 0 && j == 2 + n;
    }
    if IsNodeName(node) {
      assert IsNodeName(s[0 + 2..2 + n]) && s[0] == SLASH && s[0 + 1] == SLASH && s[2 + n] == SLASH;
    }
  }

  /** The unanchored check accepts an endpoint that no parser returns: node `"a b"`, demux `"/x/"`. */
  lemma ValidIsNotWire()
    ensures var e := Dtn([97, 32, 98], [47, 120, 47]); EidValid(e) && !EidWire(e)
  {
    var e := Dtn([97, 32, 98], [47, 120, 47]);
    var s := Ssp(e.node, e.demux);
    assert s == [47, 47, 97, 32, 98, 47, 47, 120, 47];
    assert s[5 + 2..8] == [120];
    assert s[5] == SLASH && s[5 + 1] == SLASH && s[8] == SLASH;
    assert !NameChar(e.node[1]);
  }

  /** Index of the first slash at or after `from`, or the length if there is none. */
  function FirstSlash(s: bytes, from: nat): (j: nat)
    requires from <= |s|
    ensures from <= j <= |s|
    ensures j < |s| ==> s[j] == SLASH
    ensures forall i :: from <= i < j ==> s[i] != SLASH
    decreases |s| - from
  {
    if from == |s| || s[from] == SLASH then from else FirstSlash(s, from + 1)
  }

  /** Splits a scheme-specific part into node name and demux; `None` stands for a parse error. */
  function ParseSsp(s: bytes): (r: Option<Eid>)
    ensures r.Some? ==> EidWire(r.value) && (r.value.Dtn? || r.value.DtnNone?)
  {
    if s == NONE_SSP then Some(DtnNone)
    else if |s| < 2 || s[0] != SLASH || s[1] != SLASH then None
    else
      var j := FirstSlash(s, 2);
      if j < |s| && IsNodeName(s[2..j]) && NEWLINE !in s[j + 1..] && j - 2 <= MAX_NAME && |s| - j - 1 <= MAX_NAME
      then Some(Dtn(s[2..j], s[j + 1..]))
      else None
  }

  lemma ParseSspInverts(node: Name, demux: Name)
    ensures (ParseSsp(Ssp(node, demux)) == Some(Dtn(node, demux))) <==> EidWire(Dtn(node, demux))
  {
    if IsNodeName(node) && NEWLINE !in demux {
      var s := Ssp(node, demux);
      assert forall i :: 2 <= i < 2 + |node| ==> s[i] == node[i - 2];
      var j := FirstSlash(s, 2);
      assert s[2 + |node|] == SLASH;
      assert j == 2 + |node|;
      assert s[2..j] == node && s[j + 1..] == demux;
      assert s[0] != NONE_SSP[0];
    }
  }

  /** The parser takes exactly the texts that name an endpoint. */
  lemma ParseSspIff(t: bytes, e: Eid)
    ensures ParseSsp(t) == Some(e) <==>
              (e.DtnNone? && t == NONE_SSP) || (e.Dtn? && EidWire(e) && t == Ssp(e.node, e.demux))
  {
    if e.Dtn? { ParseSspInverts(e.node, e.demux); }
    if ParseSsp(t) == Some(e) && e.Dtn? {
      var j := FirstSlash(t, 2);
      assert t == [SLASH, SLASH] + t[2..j] + [SLASH] + t[j + 1..];
    }
  }

  /** The URI text of a dtn endpoint. */
  function DtnUri(e: Eid): (s: bytes)
    requires e.DtnNone? || e.Dtn?
  {
    DTN_PREFIX + if e.DtnNone? then NONE_SSP else Ssp(e.node, e.demux)
  }

  /** Builds a dtn endpoint from a URI. */
  function NewDtn(uri: bytes): (r: Option<Eid>)
    ensures r.Some? ==> EidWire(r.value) && EidValid(r.value)
  {
    if !(DTN_PREFIX <= uri) then None
    else
      match ParseSsp(uri[4..])
      case None => None
      case Some(e) => if EidValid(e) then Some(e) else None
  }

  /** Building from the URI text gives the endpoint back exactly for the wire-representable ones. */
  lemma NewDtnInvertsUri(e: Eid)
    requires e.DtnNone? || e.Dtn?
    ensures NewDtn(DtnUri(e)) == Some(e) <==> EidWire(e)
  {
    var s := DtnUri(e);
    assert s[..4] == DTN_PREFIX;
    if e.Dtn? {
      assert s[4..] == Ssp(e.node, e.demux);
      ParseSspInverts(e.node, e.demux);
      if EidWire(e) { WireDtnIsValid(e); }
    } else {
      assert s[4..] == NONE_SSP;
    }
  }

  /** An endpoint is built exactly from its own URI text. */
  lemma NewDtnIff(uri: bytes, e: Eid)
    requires e.DtnNone? || e.Dtn?
    ensures NewDtn(uri) == Some(e) <==> EidWire(e) && uri == DtnUri(e)
  {
    hide ParseSsp, EidValid, Ssp, NewDtn, IsNodeName;
    if EidWire(e) && uri == DtnUri(e) {
      NewDtnInvertsUri(e);
    }
    if NewDtn(uri) == Some(e) {
      UriIsSplit(uri, e);
      ParseSspIff(uri[4..], e);
      assert uri == uri[..4] + uri[4..];
    }
  }

  lemma UriIsSplit(uri: bytes, e: Eid)
    requires NewDtn(uri) == Some(e)
    ensures |uri| >= 4 && uri[..4] == DTN_PREFIX && ParseSsp(uri[4..]) == Some(e)
  {
  }

  function EidBytes(e: Eid): (s: Blob) {
    match e
    case Unset => []
    case DtnNone => Head(ARRAY, 2) + (UInt(DTN_SCHEME) + UInt(0))
    case Dtn(node, demux) =>
      var ssp := Ssp(node, demux);
      Head(ARRAY, 2) + (UInt(DTN_SCHEME) + (Head(TEXT_STRING, |ssp|) + ssp))
    case Ipn(number, service) =>
      Head(ARRAY, 2) + (UInt(IPN_SCHEME) + (Head(ARRAY, 2) + (UInt(number) + UInt(service))))
  }

  function ReadDtn(s: bytes): (r: Parse<Eid>)
    ensures r.Got? ==> |r.rest| < |s| && EidWire(r.value)
  {
    var (h, rest) :- ReadHead(s);
    if h.0 == UINT then Got(DtnNone, rest)
    else if h.0 == TEXT_STRING then
      var (ssp, after) :- ReadRaw(h.1, rest);
      match ParseSsp(ssp)
      case Some(e) => if e.Dtn? then Got(e, after) else Fail(Malformed)
      case None => Fail(Malformed)
    else Fail(Malformed)
  }

  function ReadIpn(s: bytes): (r: Parse<Eid>)
    ensures r.Got? ==> |r.rest| < |s| && EidWire(r.value)
  {
    var (n, rest) :- ReadTyped(ARRAY, s);
    if n != 2 then Fail(Malformed)
    else
      var (number, rest) :- ReadUInt(rest);
      var (service, rest) :- ReadUInt(rest);
      Got(Ipn(number, service), rest)
  }

  function ReadEid(s: bytes): (r: Parse<Eid>)
    ensures r.Got? ==> |r.rest| < |s| && EidWire(r.value)
  {
    var (n, rest) :- ReadTyped(ARRAY, s);
    if n != 2 then Fail(Malformed)
    else
      var (scheme, rest) :- ReadUInt(rest);
      if scheme == DTN_SCHEME then ReadDtn(rest)
      else if scheme == IPN_SCHEME then ReadIpn(rest)
      else Fail(Malformed)
  }

  lemma DtnRoundTrip(e: Eid, rest: bytes)
    requires e.Dtn? && EidWire(e)
    ensures ReadEid(EidBytes(e) + rest) == Got(e, rest)
  {
    var ssp := Ssp(e.node, e.demux);
    var text := Head(TEXT_STRING, |ssp|) + (ssp + rest);
    assert EidBytes(e) + rest == Head(ARRAY, 2) + (UInt(DTN_SCHEME) + text);
    HeadRoundTrip(ARRAY, 2, UInt(DTN_SCHEME) + text);
    UIntRoundTrip(DTN_SCHEME, text);
    HeadRoundTrip(TEXT_STRING, |ssp|, ssp + rest);
    ParseSspInverts(e.node, e.demux);
    assert (ssp + rest)[..|ssp|] == ssp && (ssp + rest)[|ssp|..] == rest;
  }

  lemma IpnRoundTrip(e: Eid, rest: bytes)
    requires e.Ipn?
    ensures ReadEid(EidBytes(e) + rest) == Got(e, rest)
  {
    var numbers := UInt(e.number) + (UInt(e.service) + rest);
    assert EidBytes(e) + rest == Head(ARRAY, 2) + (UInt(IPN_SCHEME) + (Head(ARRAY, 2) + numbers));
    HeadRoundTrip(ARRAY, 2, UInt(IPN_SCHEME) + (Head(ARRAY, 2) + numbers));
    UIntRoundTrip(IPN_SCHEME, Head(ARRAY, 2) + numbers);
    HeadRoundTrip(ARRAY, 2, numbers);
    UIntRoundTrip(e.number, UInt(e.service) + rest);
    UIntRoundTrip(e.service, rest);
  }

  lemma NoneRoundTrip(rest: bytes)
    ensures ReadEid(EidBytes(DtnNone) + rest) == Got(DtnNone, rest)
  {
    var tail := UInt(0) + rest;
    assert EidBytes(DtnNone) + rest == Head(ARRAY, 2) + (UInt(DTN_SCHEME) + tail);
    HeadRoundTrip(ARRAY, 2, UInt(DTN_SCHEME) + tail);
    UIntRoundTrip(DTN_SCHEME, tail);
    HeadRoundTrip(UINT, 0, rest);
  }

  /** Reading undoes writing exactly for the wire-representable endpoints, whatever follows. */
  lemma EidRoundTrip(e: Eid, rest: bytes)
    requires !e.Unset?
    ensures ReadEid(EidBytes(e) + rest) == Got(e, rest) <==> EidWire(e)
  {
    if EidWire(e) {
      match e
      case DtnNone => NoneRoundTrip(rest);
      case Dtn(_, _) => DtnRoundTrip(e, rest);
      case Ipn(_, _) => IpnRoundTrip(e, rest);
    }
  }
}
