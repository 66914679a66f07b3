/** The Burp-export-to-JSON converter: locate the start of a JSON body in
    a decoded HTTP response with the multi-line pattern `^\s*{`, parse it,
    and keep the truthy results in document order. Base64, UTF-8 and JSON
    decoding are supplied as partial functions. */
module Burp2Json {
  import opened Common

  /** Position p starts a line: the start of the text or just after a line feed. */
  predicate IsLineStart(s: string, p: nat) {
    p <= |s| && (p == 0 || s[p - 1] == '\n')
  }

  /** The first position at or after p that is not whitespace (|s| if none). */
  function SkipSpace(s: string, p: nat): (q: nat)
    requires p <= |s|
    ensures p <= q <= |s|
    ensures forall k :: p <= k < q ==> IsSpace(s[k])
    ensures q == |s| || !IsSpace(s[q])
    decreases |s| - p
  {
    if p == |s| || !IsSpace(s[p]) then p else SkipSpace(s, p + 1)
  }

  /** `^\s*{` matches at p. Because `\s*` is followed by a character that is
      not whitespace, it matches exactly when the first non-whitespace
      character from p is an opening brace. */
  predicate MatchesAt(s: string, p: nat) {
    IsLineStart(s, p) && SkipSpace(s, p) < |s| && s[SkipSpace(s, p)] == '{'
  }

  function FindFrom(s: string, p: nat): (r: Option<nat>)
    requires p <= |s|
    ensures r.None? ==> forall p': nat :: p <= p' ==> !MatchesAt(s, p')
    ensures r.Some? ==> p <= r.value && MatchesAt(s, r.value)
    ensures r.Some? ==> forall p': nat :: p <= p' < r.value ==> !MatchesAt(s, p')
    decreases |s| - p
  {
    if MatchesAt(s, p) then Some(p)
    else if p == |s| then None
    else FindFrom(s, p + 1)
  }

  /** extract_json_from_http_response: the suffix of the response from the
      leftmost match of `^\s*{`, or None when there is none. */
  function ExtractJson(s: string): (r: Option<string>)
    ensures r.None? <==> forall p: nat :: !MatchesAt(s, p)
    ensures r.Some? ==> r.value != []
    ensures r.Some? ==>
              exists p: nat :: p <= |s| && MatchesAt(s, p) && r.value == s[p..]
                               && forall p': nat :: p' < p ==> !MatchesAt(s, p')
  {
    match FindFrom(s, 0)
    case None => None
    case Some(p) =>
      assert MatchesAt(s, p);
      Some(s[p..])
  }

  lemma {:induction false} SkipSpaceSuffix(s: string, p: nat, k: nat)
    requires p <= k <= |s|
    requires forall m :: p <= m < k ==> IsSpace(s[m])
    ensures SkipSpace(s[p..], k - p) + p == SkipSpace(s, k)
    decreases |s| - k
  {
    if k < |s| && IsSpace(s[k]) {
      SkipSpaceSuffix(s, p, k + 1);
    }
  }

  /** The first non-whitespace character of an extracted body is `{`;
      whitespace before it, blank lines included, is kept. */
  lemma ExtractedStartsWithBrace(s: string)
    requires ExtractJson(s).Some?
    ensures var b := ExtractJson(s).value;
            SkipSpace(b, 0) < |b| && b[SkipSpace(b, 0)] == '{'
  {
    var p: nat :| p <= |s| && MatchesAt(s, p) && ExtractJson(s).value == s[p..];
    SkipSpaceSuffix(s, p, p);
  }

  /** An opening brace with a non-whitespace character before it on its
      own line never begins a match. */
  lemma BraceAfterTextNeverMatches(s: string, q: nat, k: nat)
    requires k < q < |s| && s[q] == '{' && !IsSpace(s[k])
    requires forall m :: k <= m < q ==> s[m] != '\n'
    ensures forall p: nat :: MatchesAt(s, p) ==> SkipSpace(s, p) != q
  {
    forall p: nat | MatchesAt(s, p) ensures SkipSpace(s, p) != q {
      if p > k {
        assert s[p - 1] == '\n';
      }
    }
  }

  /** Decoders the script calls and whose failure it catches: b64decode,
      bytes.decode('utf-8') and json.loads. */
  datatype Decoders = Decoders(
    base64: string -> Option<seq<byte>>,
    utf8: seq<byte> -> Option<string>,
    json: string -> Option<Json>)

  /** The errors of b64decode that the handler does not catch: TypeError
      for an element without text, ValueError for a text with a
      character outside ASCII. Either one ends the script. */
  datatype Uncaught = NoText | NonAsciiText

  /** decode_and_convert_to_json on an element's text (None when the
      element has none): an uncaught error, or else None on any caught
      decoding error and when the text holds no JSON start, and otherwise
      whatever json.loads makes of the extracted suffix. */
  function DecodeAndConvert(encoded: Option<string>, d: Decoders): (r: Result<Option<Json>, Uncaught>)
    ensures r == Failure(NoText) <==> encoded.None?
    ensures r == Failure(NonAsciiText) <==> encoded.Some? && !AllAscii(encoded.value)
    ensures encoded.Some? && AllAscii(encoded.value) ==> r.Success?
    ensures r.Success? && d.base64(encoded.value).None? ==> r.value.None?
    ensures r.Success? && d.base64(encoded.value).Some? && d.utf8(d.base64(encoded.value).value).None? ==>
              r.value.None?
    ensures r.Success? && d.base64(encoded.value).Some? && d.utf8(d.base64(encoded.value).value).Some? ==>
              var text := d.utf8(d.base64(encoded.value).value).value;
              r.value == if ExtractJson(text).None? then None else d.json(ExtractJson(text).value)
  {
    if encoded.None? then Failure(NoText)
    else if !AllAscii(encoded.value) then Failure(NonAsciiText)
    else
      match d.base64(encoded.value)
      case None => Success(None)
      case Some(bytes) =>
        match d.utf8(bytes)
        case None => Success(None)
        case Some(text) =>
          match ExtractJson(text)
          case None => Success(None)
          case Some(content) => Success(if content != [] then d.json(content) else None)
  }

  /** The list after one more element: its value is appended when present
      and truthy; an uncaught error ends the loop. */
  function Absorb(acc: Result<seq<Json>, Uncaught>, encoded: Option<string>, d: Decoders): Result<seq<Json>, Uncaught> {
    match acc
    case Failure(u) => Failure(u)
    case Success(vs) =>
      match DecodeAndConvert(encoded, d)
      case Failure(u) => Failure(u)
      case Success(r) => Success(vs + (if r.Some? && Truthy(r.value) then [r.value] else []))
  }

  /** The list that main collects: the truthy results, in document order,
      or the uncaught error of the first element that raises one. */
  function Kept(encoded: seq<Option<string>>, d: Decoders): Result<seq<Json>, Uncaught> {
    if encoded == [] then Success([])
    else Absorb(Kept(encoded[..|encoded| - 1], d), encoded[|encoded| - 1], d)
  }

  /** main's loop over the response elements. */
  method CollectResponses(encoded: seq<Option<string>>, d: Decoders) returns (responses: Result<seq<Json>, Uncaught>)
    ensures responses == Kept(encoded, d)
  {
    var acc: seq<Json> := [];
    for i := 0 to |encoded|
      invariant Kept(encoded[..i], d) == Success(acc)
    {
      assert encoded[..i + 1][..i] == encoded[..i];
      assert Kept(encoded[..i + 1], d) == Absorb(Success(acc), encoded[i], d);
      var responseJson := DecodeAndConvert(encoded[i], d);
      if responseJson.Failure? {
        KeptStops(encoded[..i + 1], encoded[i + 1..], d);
        assert encoded[..i + 1] + encoded[i + 1..] == encoded;
        return Failure(responseJson.error);
      }
      if responseJson.value.Some? && Truthy(responseJson.value.value) {
        acc := acc + [responseJson.value.value];
      } else {
        assert acc + [] == acc;
      }
    }
    assert encoded[..|encoded|] == encoded;
    return Success(acc);
  }

  /** Once an element has raised, the elements after it change nothing. */
  lemma {:induction false} KeptStops(a: seq<Option<string>>, b: seq<Option<string>>, d: Decoders)
    requires Kept(a, d).Failure?
    ensures Kept(a + b, d) == Kept(a, d)
    decreases |b|
  {
    if b == [] {
      assert a + b == a;
    } else {
      assert (a + b)[..|a + b| - 1] == a + b[..|b| - 1];
      KeptStops(a, b[..|b| - 1], d);
    }
  }

  /** Collecting over two runs of elements is collecting over each in turn
      (document order), the first uncaught error winning; every kept value
      is truthy, at most one value is kept per element. */
  lemma {:induction false} KeptProperties(a: seq<Option<string>>, b: seq<Option<string>>, d: Decoders)
    ensures Kept(a, d).Failure? ==> Kept(a + b, d) == Kept(a, d)
    ensures Kept(a, d).Success? && Kept(b, d).Failure? ==> Kept(a + b, d) == Kept(b, d)
    ensures Kept(a, d).Success? && Kept(b, d).Success? ==>
              Kept(a + b, d) == Success(Kept(a, d).value + Kept(b, d).value)
    ensures Kept(a, d).Success? ==> forall v :: v in Kept(a, d).value ==> Truthy(v)
    ensures Kept(a, d).Success? ==> |Kept(a, d).value| <= |a|
  {
    KeptTruthy(a, d);
    if Kept(a, d).Failure? {
      KeptStops(a, b, d);
    } else {
      KeptAppend(a, b, d);
    }
  }

  lemma {:induction false} KeptAppend(a: seq<Option<string>>, b: seq<Option<string>>, d: Decoders)
    requires Kept(a, d).Success?
    ensures Kept(b, d).Failure? ==> Kept(a + b, d) == Kept(b, d)
    ensures Kept(b, d).Success? ==> Kept(a + b, d) == Success(Kept(a, d).value + Kept(b, d).value)
    decreases |b|
  {
    if b == [] {
      assert a + b == a;
      assert Kept(a, d).value + [] == Kept(a, d).value;
    } else {
      var b', e := b[..|b| - 1], b[|b| - 1];
      assert (a + b)[..|a + b| - 1] == a + b' && (a + b)[|a + b| - 1] == e;
      KeptAppend(a, b', d);
      if Kept(b', d).Success? {
        AbsorbAfter(Kept(a, d).value, Kept(b', d).value, e, d);
      }
    }
  }

  /** Absorbing an element after a longer list appends the same thing. */
  lemma AbsorbAfter(x: seq<Json>, y: seq<Json>, e: Option<string>, d: Decoders)
    ensures Absorb(Success(y), e, d).Failure? ==> Absorb(Success(x + y), e, d) == Absorb(Success(y), e, d)
    ensures Absorb(Success(y), e, d).Success? ==>
              Absorb(Success(x + y), e, d) == Success(x + Absorb(Success(y), e, d).value)
  {
    var r := DecodeAndConvert(e, d);
    if r.Success? {
      var extra := if r.value.Some? && Truthy(r.value.value) then [r.value.value] else [];
      AppendAssoc(x, y, extra);
    }
  }

  lemma {:induction false} KeptTruthy(a: seq<Option<string>>, d: Decoders)
    ensures Kept(a, d).Success? ==> forall v :: v in Kept(a, d).value ==> Truthy(v)
    ensures Kept(a, d).Success? ==> |Kept(a, d).value| <= |a|
  {
    if a != [] {
      var a' := a[..|a| - 1];
      KeptTruthy(a', d);
      if Kept(a, d).Success? {
        var r := DecodeAndConvert(a[|a| - 1], d).value;
        assert Kept(a, d).value == Kept(a', d).value + (if r.Some? && Truthy(r.value) then [r.value] else []);
      }
    }
  }

  lemma KeptDropsFalsy(t: string, d: Decoders)
    requires AllAscii(t)
    requires DecodeAndConvert(Some(t), d).value.None? || !Truthy(DecodeAndConvert(Some(t), d).value.value)
    ensures Kept([Some(t)], d) == Success([])
  {
    assert [Some(t)][..0] == [];
    assert Kept([Some(t)], d) == Absorb(Success([]), Some(t), d);
    var empty: seq<Json> := [];
    assert empty + [] == empty;
  }

  /** A response element without text stops the script: whatever comes
      after it, no list is written. */
  lemma MissingTextStops(a: seq<Option<string>>, b: seq<Option<string>>, d: Decoders)
    requires Kept(a, d).Success?
    ensures Kept(a + [None] + b, d) == Failure(NoText)
  {
    assert (a + [None])[..|a|] == a;
    KeptStops(a + [None], b, d);
  }
}
