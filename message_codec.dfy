/** Reading a provider message: `_extract_header`, the header dictionary that
    `gmail_get_message` builds, and `_decode_body`, the recursive walk over
    the payload tree that picks a plain-text and an HTML body.

    Base64url and UTF-8 decoding is the parameter `dec`: `dec(data)` is the
    text that `base64.urlsafe_b64decode(data).decode('utf-8')` yields, or
    `None` when either step raises. */
module MessageCodec {
  import opened Common

  /** One element of `payload['headers']`; a key the dictionary lacks is `None`. */
  datatype Header = Header(name: Option<string>, value: Option<string>)

  /** A payload node: `mimeType` (`""` when absent, as `.get('mimeType', '')`
      reads it), `body.data` when both keys are present, whether the `parts`
      key is present and the list it holds (`[]` when absent), and `headers`
      (`[]` when absent). */
  datatype Payload = Payload(mimeType: string, data: Option<string>, hasParts: bool, parts: seq<Payload>, headers: seq<Header>)

  /** The payload `msg_data.get('payload', {})` yields when the key is absent. */
  const EmptyPayload := Payload("", None, false, [], [])

  /** The text and HTML bodies found so far (`body_text`, `body_html`). */
  datatype Bodies = Bodies(text: Option<string>, html: Option<string>)

  /** The two kinds of body the walk collects. */
  datatype Kind = Plain | Html

  function Prefix(k: Kind): string {
    match k
    case Plain => "text/plain"
    case Html => "text/html"
  }

  /** `part.get('mimeType', '').startswith(...)` for the body kind `k`. */
  predicate IsKind(p: Payload, k: Kind) {
    StartsWith(p.mimeType, Prefix(k))
  }

  function Field(b: Bodies, k: Kind): Option<string> {
    match k
    case Plain => b.text
    case Html => b.html
  }

  /** The decoded body data of a node, or `None` when it has none or it does
      not decode. */
  function Decoded(p: Payload, dec: string -> Option<string>): Option<string> {
    if p.data.Some? then dec(p.data.value) else None
  }

  // ---------------------------------------------------------------------------
  // Header lookup
  // ---------------------------------------------------------------------------

  /** `header.get('name', '').lower() == name.lower()`. */
  predicate NameMatches(h: Header, name: string) {
    Lower(h.name.GetOr("")) == Lower(name)
  }

  /** `_extract_header(headers, name)`: the value of the first header whose
      name equals `name` ignoring case (`None` if that header has no value),
      and `None` if no header matches. */
  function ExtractHeader(headers: seq<Header>, name: string): Option<string> {
    if headers == [] then None
    else if NameMatches(headers[0], name) then headers[0].value
    else ExtractHeader(headers[1..], name)
  }

  /** The lookup finds nothing when no name matches, and otherwise yields
      the value of the first match. */
  lemma ExtractHeaderFirst(headers: seq<Header>, name: string)
    ensures (forall i :: 0 <= i < |headers| ==> !NameMatches(headers[i], name)) ==> ExtractHeader(headers, name) == None
    ensures forall i :: 0 <= i < |headers| && NameMatches(headers[i], name) &&
                        (forall j :: 0 <= j < i ==> !NameMatches(headers[j], name))
                        ==> ExtractHeader(headers, name) == headers[i].value
  {
    if forall i :: 0 <= i < |headers| ==> !NameMatches(headers[i], name) {
      ExtractHeaderNone(headers, name);
    }
    forall i | 0 <= i < |headers| && NameMatches(headers[i], name) &&
               (forall j :: 0 <= j < i ==> !NameMatches(headers[j], name))
      ensures ExtractHeader(headers, name) == headers[i].value
    {
      ExtractHeaderAt(headers, name, i);
    }
  }

  lemma {:induction false} ExtractHeaderNone(headers: seq<Header>, name: string)
    requires forall i :: 0 <= i < |headers| ==> !NameMatches(headers[i], name)
    ensures ExtractHeader(headers, name) == None
    decreases |headers|
  {
    if headers != [] {
      assert !NameMatches(headers[0], name);
      assert forall i :: 0 <= i < |headers| - 1 ==> headers[1..][i] == headers[i + 1];
      ExtractHeaderNone(headers[1..], name);
    }
  }

  lemma {:induction false} ExtractHeaderAt(headers: seq<Header>, name: string, i: nat)
    requires i < |headers| && NameMatches(headers[i], name)
    requires forall j :: 0 <= j < i ==> !NameMatches(headers[j], name)
    ensures ExtractHeader(headers, name) == headers[i].value
    decreases i
  {
    if i > 0 {
      assert !NameMatches(headers[0], name);
      assert forall j :: 0 <= j < i - 1 ==> headers[1..][j] == headers[j + 1];
      ExtractHeaderAt(headers[1..], name, i - 1);
    }
  }

  /** The duplicates the provider may send are resolved in favour of the
      first: whatever follows a matching header does not change the lookup. */
  lemma FirstHeaderWins(headers: seq<Header>, h: Header, rest: seq<Header>, name: string)
    requires (forall i :: 0 <= i < |headers| ==> !NameMatches(headers[i], name)) && NameMatches(h, name)
    ensures ExtractHeader(headers + [h] + rest, name) == h.value
  {
    var all := headers + [h] + rest;
    ExtractHeaderFirst(all, name);
    assert all[|headers|] == h;
    assert forall j :: 0 <= j < |headers| ==> all[j] == headers[j];
  }

  // ---------------------------------------------------------------------------
  // The header dictionary of gmail_get_message
  // ---------------------------------------------------------------------------

  /** `header.get('name', '')`. */
  function NameOf(h: Header): string {
    h.name.GetOr("")
  }

  /** `header.get('value', '')`. */
  function ValueOf(h: Header): string {
    h.value.GetOr("")
  }

  /** `header_dict` after `header_dict[name] = value` for each header in turn. */
  function HeaderDict(headers: seq<Header>): map<string, string>
    decreases |headers|
  {
    if headers == [] then map[]
    else
      var last := headers[|headers| - 1];
      HeaderDict(headers[..|headers| - 1])[NameOf(last) := ValueOf(last)]
  }

  /** The dictionary has one key per header name, and a name that occurs
      several times (exact case) keeps the value of its LAST occurrence, unlike
      `ExtractHeader`. */
  lemma {:induction false} HeaderDictLastWins(headers: seq<Header>)
    ensures HeaderDict(headers).Keys == set i | 0 <= i < |headers| :: NameOf(headers[i])
    ensures forall i :: 0 <= i < |headers| &&
                        (forall j :: i < j < |headers| ==> NameOf(headers[j]) != NameOf(headers[i]))
                        ==> HeaderDict(headers)[NameOf(headers[i])] == ValueOf(headers[i])
  {
    HeaderDictKeys(headers);
    forall i | 0 <= i < |headers| &&
               (forall j :: i < j < |headers| ==> NameOf(headers[j]) != NameOf(headers[i]))
      ensures HeaderDict(headers)[NameOf(headers[i])] == ValueOf(headers[i])
    {
      HeaderDictValue(headers, i);
    }
  }

  lemma {:induction false} HeaderDictKeys(headers: seq<Header>)
    ensures HeaderDict(headers).Keys == set i | 0 <= i < |headers| :: NameOf(headers[i])
    decreases |headers|
  {
    if headers != [] {
      var n := |headers| - 1;
      var init := headers[..n];
      HeaderDictKeys(init);
      var names := set i | 0 <= i < |headers| :: NameOf(headers[i]);
      var initNames := set i | 0 <= i < n :: NameOf(init[i]);
      forall x | x in names
        ensures x in initNames + {NameOf(headers[n])}
      {
        var i :| 0 <= i < |headers| && NameOf(headers[i]) == x;
        if i < n {
          assert init[i] == headers[i];
        }
      }
      forall x | x in initNames
        ensures x in names
      {
        var i :| 0 <= i < n && NameOf(init[i]) == x;
        assert init[i] == headers[i];
      }
      assert names == initNames + {NameOf(headers[n])};
    }
  }

  lemma {:induction false} HeaderDictValue(headers: seq<Header>, i: nat)
    requires i < |headers|
    requires forall j :: i < j < |headers| ==> NameOf(headers[j]) != NameOf(headers[i])
    ensures NameOf(headers[i]) in HeaderDict(headers)
    ensures HeaderDict(headers)[NameOf(headers[i])] == ValueOf(headers[i])
    decreases |headers|
  {
    var n := |headers| - 1;
    if i < n {
      var init := headers[..n];
      assert init[i] == headers[i];
      forall j | i < j < n
        ensures NameOf(init[j]) != NameOf(init[i])
      {
        assert init[j] == headers[j];
      }
      HeaderDictValue(init, i);
    }
  }

  /** The loop of `gmail_get_message` that fills `header_dict`. */
  method BuildHeaderDict(headers: seq<Header>) returns (d: map<string, string>)
    ensures d == HeaderDict(headers)
    ensures d.Keys == set i | 0 <= i < |headers| :: NameOf(headers[i])
  {
    d := map[];
    for i := 0 to |headers|
      invariant d == HeaderDict(headers[..i])
    {
      var name := NameOf(headers[i]);
      var value := ValueOf(headers[i]);
      assert headers[..i + 1][..i] == headers[..i];
      d := d[name := value];
    }
    assert headers[..|headers|] == headers;
    HeaderDictLastWins(headers);
  }

  /** Repeated headers: the lookup keeps the first value and the dictionary
      the last. */
  lemma RepeatedHeaderExample()
    ensures ExtractHeader([Header(Some("Received"), Some("a")), Header(Some("Received"), Some("b"))], "received") == Some("a")
    ensures HeaderDict([Header(Some("Received"), Some("a")), Header(Some("Received"), Some("b"))])["Received"] == "b"
  {
    var hs := [Header(Some("Received"), Some("a")), Header(Some("Received"), Some("b"))];
    assert NameMatches(hs[0], "received");
    assert hs[..1] == [hs[0]];
  }

  // ---------------------------------------------------------------------------
  // Body decoding
  // ---------------------------------------------------------------------------

  /** The node's own data: assigned to the text body when the node's type
      starts with `text/plain`, to the HTML body when it starts with
      `text/html`, and discarded otherwise or when it does not decode. */
  function OwnBodies(p: Payload, dec: string -> Option<string>): Bodies {
    var d := Decoded(p, dec);
    if d.None? then Bodies(None, None)
    else if IsKind(p, Plain) then Bodies(d, None)
    else if IsKind(p, Html) then Bodies(None, d)
    else Bodies(None, None)
  }

  /** The result of a recursive call on a child is adopted field by field,
      and only for a field that is still empty (`None` or `""`). */
  function Adopt(b: Bodies, nested: Bodies): Bodies {
    Bodies(
      if Filled(nested.text) && !Filled(b.text) then nested.text else b.text,
      if Filled(nested.html) && !Filled(b.html) then nested.html else b.html)
  }

  /** One iteration of the loop over `parts`: a direct `text/plain` or
      `text/html` child with decodable data overwrites its field; then, if
      the child has `parts`, its recursive result fills the empty fields. */
  function Visit(acc: Bodies, part: Payload, dec: string -> Option<string>): Bodies
    decreases part, 3, 0
  {
    var d := Decoded(part, dec);
    var direct :=
      if IsKind(part, Plain) then (if d.Some? then acc.(text := d) else acc)
      else if IsKind(part, Html) then (if d.Some? then acc.(html := d) else acc)
      else acc;
    if part.hasParts then Adopt(direct, BodyOf(part, dec)) else direct
  }

  /** The loop over `parts[i..]` of node `p`, starting from `acc`. */
  function ScanParts(acc: Bodies, p: Payload, i: nat, dec: string -> Option<string>): Bodies
    requires i <= |p.parts|
    decreases p, 1, |p.parts| - i
  {
    if i == |p.parts| then acc
    else ScanParts(Visit(acc, p.parts[i], dec), p, i + 1, dec)
  }

  /** `_decode_body(payload)`. */
  function BodyOf(p: Payload, dec: string -> Option<string>): Bodies
    decreases p, 2, 0
  {
    if p.hasParts then ScanParts(OwnBodies(p, dec), p, 0, dec) else OwnBodies(p, dec)
  }

  /** The method form of `_decode_body`: the node's own data, then a loop
      over the direct children that reassigns the two fields, recursing
      into children that have parts of their own. */
  method DecodeBody(p: Payload, dec: string -> Option<string>) returns (bodyText: Option<string>, bodyHtml: Option<string>)
    ensures Bodies(bodyText, bodyHtml) == BodyOf(p, dec)
    decreases p
  {
    bodyText, bodyHtml := None, None;
    if p.data.Some? {
      var decoded := dec(p.data.value);
      if decoded.Some? {
        if StartsWith(p.mimeType, "text/plain") {
          bodyText := decoded;
        } else if StartsWith(p.mimeType, "text/html") {
          bodyHtml := decoded;
        }
      }
    }
    if p.hasParts {
      var parts := p.parts;
      for i := 0 to |parts|
        invariant ScanParts(Bodies(bodyText, bodyHtml), p, i, dec) == BodyOf(p, dec)
      {
        var part := parts[i];
        ghost var before := Bodies(bodyText, bodyHtml);
        if StartsWith(part.mimeType, "text/plain") {
          if part.data.Some? {
            var decoded := dec(part.data.value);
            if decoded.Some? {
              bodyText := decoded;
            }
          }
        } else if StartsWith(part.mimeType, "text/html") {
          if part.data.Some? {
            var decoded := dec(part.data.value);
            if decoded.Some? {
              bodyHtml := decoded;
            }
          }
        }
        if part.hasParts {
          var nestedText, nestedHtml := DecodeBody(part, dec);
          if Filled(nestedText) && !Filled(bodyText) {
            bodyText := nestedText;
          }
          if Filled(nestedHtml) && !Filled(bodyHtml) {
            bodyHtml := nestedHtml;
          }
        }
        assert Bodies(bodyText, bodyHtml) == Visit(before, part, dec);
      }
    }
  }

  // ---------------------------------------------------------------------------
  // What the body walk promises
  // ---------------------------------------------------------------------------

  /** A type starting with `text/plain` does not start with `text/html`. */
  lemma KindsExclusive(p: Payload)
    ensures !(IsKind(p, Plain) && IsKind(p, Html))
  {
    assert Prefix(Plain)[5] != Prefix(Html)[5];
  }

  /** A direct `k` source: a node of kind `k` whose data decodes. */
  predicate DirectSource(q: Payload, k: Kind, dec: string -> Option<string>) {
    IsKind(q, k) && Decoded(q, dec).Some?
  }

  /** The effect of one child on the field of kind `k`: set by the child's
      own data when it is a direct source, then filled from the child's own
      walk only if still empty. */
  lemma VisitField(acc: Bodies, part: Payload, k: Kind, dec: string -> Option<string>)
    ensures var direct := if DirectSource(part, k, dec) then Decoded(part, dec) else Field(acc, k);
            Field(Visit(acc, part, dec), k) ==
              if part.hasParts && Filled(Field(BodyOf(part, dec), k)) && !Filled(direct)
              then Field(BodyOf(part, dec), k) else direct
  {
    KindsExclusive(part);
  }

  /** The node's own data is the starting value of the field of kind `k`. */
  lemma OwnField(p: Payload, k: Kind, dec: string -> Option<string>)
    ensures Field(OwnBodies(p, dec), k) == if DirectSource(p, k, dec) then Decoded(p, dec) else None
  {
    KindsExclusive(p);
  }

  /** A filled field survives the rest of the loop when no later child is a
      direct source of its kind. */
  lemma {:induction false} ScanKeepsFilled(acc: Bodies, p: Payload, i: nat, k: Kind, dec: string -> Option<string>)
    requires i <= |p.parts| && Filled(Field(acc, k))
    requires forall j :: i <= j < |p.parts| ==> !DirectSource(p.parts[j], k, dec)
    ensures Field(ScanParts(acc, p, i, dec), k) == Field(acc, k)
    decreases |p.parts| - i
  {
    if i < |p.parts| {
      VisitField(acc, p.parts[i], k, dec);
      ScanKeepsFilled(Visit(acc, p.parts[i], dec), p, i + 1, k, dec);
    }
  }

  /** A leaf (a node without `parts`) yields its own data, by type. */
  lemma LeafBody(p: Payload, dec: string -> Option<string>)
    requires !p.hasParts
    ensures IsKind(p, Plain) ==> BodyOf(p, dec) == Bodies(Decoded(p, dec), None)
    ensures IsKind(p, Html) ==> BodyOf(p, dec) == Bodies(None, Decoded(p, dec))
    ensures !IsKind(p, Plain) && !IsKind(p, Html) ==> BodyOf(p, dec) == Bodies(None, None)
  {
    KindsExclusive(p);
  }

  /** The node's own filled data is kept unless a direct child is a source
      of the same kind: nested parts never replace it. */
  lemma OwnBodyKept(p: Payload, k: Kind, dec: string -> Option<string>)
    requires DirectSource(p, k, dec) && Filled(Decoded(p, dec))
    requires forall j :: 0 <= j < |p.parts| ==> !DirectSource(p.parts[j], k, dec)
    ensures Field(BodyOf(p, dec), k) == Decoded(p, dec)
  {
    OwnField(p, k, dec);
    if p.hasParts {
      ScanKeepsFilled(OwnBodies(p, dec), p, 0, k, dec);
    }
  }

  /** Among the direct children, the last source of a kind wins when its
      text is non-empty, whatever came before it and whatever nested parts
      follow it. */
  lemma LastDirectChildWins(p: Payload, i: nat, k: Kind, dec: string -> Option<string>)
    requires p.hasParts && i < |p.parts|
    requires DirectSource(p.parts[i], k, dec) && Filled(Decoded(p.parts[i], dec))
    requires forall j :: i < j < |p.parts| ==> !DirectSource(p.parts[j], k, dec)
    ensures Field(BodyOf(p, dec), k) == Decoded(p.parts[i], dec)
  {
    var acc := ScanParts(OwnBodies(p, dec), p, 0, dec);
    ScanSplit(OwnBodies(p, dec), p, 0, i, dec);
    var before := ScanUpTo(OwnBodies(p, dec), p, 0, i, dec);
    VisitField(before, p.parts[i], k, dec);
    ScanKeepsFilled(Visit(before, p.parts[i], dec), p, i + 1, k, dec);
  }

  /** The loop state after children `i .. n-1`. */
  function ScanUpTo(acc: Bodies, p: Payload, i: nat, n: nat, dec: string -> Option<string>): Bodies
    requires i <= n <= |p.parts|
    decreases n - i
  {
    if i == n then acc else ScanUpTo(Visit(acc, p.parts[i], dec), p, i + 1, n, dec)
  }

  lemma {:induction false} ScanUpToSnoc(acc: Bodies, p: Payload, i: nat, n: nat, dec: string -> Option<string>)
    requires i <= n < |p.parts|
    ensures ScanUpTo(acc, p, i, n + 1, dec) == Visit(ScanUpTo(acc, p, i, n, dec), p.parts[n], dec)
    decreases n - i
  {
    if i < n {
      ScanUpToSnoc(Visit(acc, p.parts[i], dec), p, i + 1, n, dec);
    }
  }

  /** The loop over children `i ..` is the loop up to `n` followed by the
      loop from `n`. */
  lemma {:induction false} ScanSplit(acc: Bodies, p: Payload, i: nat, n: nat, dec: string -> Option<string>)
    requires i <= n <= |p.parts|
    ensures ScanParts(acc, p, i, dec) == ScanParts(ScanUpTo(acc, p, i, n, dec), p, n, dec)
    decreases n - i
  {
    if i < n {
      ScanSplit(Visit(acc, p.parts[i], dec), p, i + 1, n, dec);
    }
  }

  /** With no direct source of kind `k` anywhere in the node, the field comes
      from the first child whose own walk yields a non-empty text of that
      kind. */
  lemma FirstNestedFills(p: Payload, i: nat, k: Kind, dec: string -> Option<string>)
    requires p.hasParts && i < |p.parts|
    requires !DirectSource(p, k, dec)
    requires forall j :: 0 <= j < |p.parts| ==> !DirectSource(p.parts[j], k, dec)
    requires p.parts[i].hasParts && Filled(Field(BodyOf(p.parts[i], dec), k))
    requires forall j :: 0 <= j < i ==> !(p.parts[j].hasParts && Filled(Field(BodyOf(p.parts[j], dec), k)))
    ensures Field(BodyOf(p, dec), k) == Field(BodyOf(p.parts[i], dec), k)
  {
    OwnField(p, k, dec);
    var own := OwnBodies(p, dec);
    for n := 0 to i
      invariant Field(ScanUpTo(own, p, 0, n, dec), k) == None
    {
      ScanUpToSnoc(own, p, 0, n, dec);
      VisitField(ScanUpTo(own, p, 0, n, dec), p.parts[n], k, dec);
    }
    ScanSplit(own, p, 0, i, dec);
    var before := ScanUpTo(own, p, 0, i, dec);
    VisitField(before, p.parts[i], k, dec);
    ScanKeepsFilled(Visit(before, p.parts[i], dec), p, i + 1, k, dec);
  }

  /** `q` is a node the walk reaches from `p`: `p` itself, or a node reached
      from one of the children of a node that has `parts`. */
  ghost predicate Reaches(p: Payload, q: Payload)
    decreases p
  {
    q == p || (p.hasParts && exists j :: 0 <= j < |p.parts| && Reaches(p.parts[j], q))
  }

  /** `v` is absent or is the decoded data of a node of kind `k` reached from `p`. */
  ghost predicate FromTree(v: Option<string>, p: Payload, k: Kind, dec: string -> Option<string>) {
    v.Some? ==> exists q :: Reaches(p, q) && IsKind(q, k) && Decoded(q, dec) == v
  }

  /** Every body the walk returns is the decoded data of a reached node of
      the matching type: nothing is invented and no HTML part lands in the
      text body or the reverse. */
  lemma {:induction false} BodyProvenance(p: Payload, k: Kind, dec: string -> Option<string>)
    ensures FromTree(Field(BodyOf(p, dec), k), p, k, dec)
    decreases p, 2
  {
    OwnField(p, k, dec);
    assert Reaches(p, p);
    if p.hasParts {
      ScanProvenance(OwnBodies(p, dec), p, 0, k, dec);
    }
  }

  lemma {:induction false} ScanProvenance(acc: Bodies, p: Payload, i: nat, k: Kind, dec: string -> Option<string>)
    requires p.hasParts && i <= |p.parts|
    requires FromTree(Field(acc, k), p, k, dec)
    ensures FromTree(Field(ScanParts(acc, p, i, dec), k), p, k, dec)
    decreases p, 1, |p.parts| - i
  {
    if i < |p.parts| {
      var part := p.parts[i];
      var next := Visit(acc, part, dec);
      VisitProvenance(acc, part, k, dec);
      if Field(next, k) != Field(acc, k) && Field(next, k).Some? {
        var q :| Reaches(part, q) && IsKind(q, k) && Decoded(q, dec) == Field(next, k);
        assert Reaches(p, q);
      }
      ScanProvenance(next, p, i + 1, k, dec);
    }
  }

  lemma {:induction false} VisitProvenance(acc: Bodies, part: Payload, k: Kind, dec: string -> Option<string>)
    ensures Field(Visit(acc, part, dec), k) == Field(acc, k) || FromTree(Field(Visit(acc, part, dec), k), part, k, dec)
    decreases part, 3
  {
    VisitField(acc, part, k, dec);
    assert Reaches(part, part);
    if part.hasParts {
      BodyProvenance(part, k, dec);
    }
  }
}
