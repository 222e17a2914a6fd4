/** `tokenize_out`: the conversion of a decoded token tree back into
    JavaScript values. Byte-like tokens become "0x" and lowercase hex,
    integers their decimal text, and composites arrays filled slot by slot. */
module Output {

  import opened Results
  import opened Text
  import opened Abi
  import opened Host

  /** The JavaScript value `tokenize_out` builds for `t`; `toDecimal` is
      `U256::to_string`, whose rendering is not visible. */
  function Rendered(toDecimal: Word -> seq<byte>, t: Token): (r: HostValue)
    decreases t, 1
    ensures r.JsArray? <==> t.Array? || t.FixedArray? || t.Tuple?
    ensures r.JsBoolean? <==> t.Bool?
    ensures r.JsBoolean? || r.JsString? || r.JsArray?
  {
    match t
    case Bool(b) => JsBoolean(b)
    case String(s) => JsString(s)
    case Address(a) => JsString(HexPrefix + HexEncode(a))
    case Bytes(b) => JsString(HexPrefix + HexEncode(b))
    case FixedBytes(b) => JsString(HexPrefix + HexEncode(b))
    case Uint(w) => JsString(toDecimal(w))
    case Int(w) => JsString(toDecimal(w))
    case Array(ts) => JsArray(RenderedElements(toDecimal, ts))
    case FixedArray(ts) => JsArray(RenderedElements(toDecimal, ts))
    case Tuple(ts) => JsArray(RenderedElements(toDecimal, ts))
  }

  function RenderedElements(toDecimal: Word -> seq<byte>, ts: seq<Token>): (vs: seq<HostValue>)
    decreases ts, 0
    ensures |vs| == |ts|
  {
    seq(|ts|, k requires 0 <= k < |ts| => Rendered(toDecimal, ts[k]))
  }

  /** `tokenize_out`. It never fails: every branch builds a value, so the
      `?` on the recursive call never fires. A composite is copied into a
      fresh JavaScript array, element k into slot k. */
  method TokenizeOut(toDecimal: Word -> seq<byte>, token: Token) returns (r: Result<HostValue, Failure>)
    decreases token
    ensures r == Ok(Rendered(toDecimal, token))
  {
    if token.Array? || token.FixedArray? || token.Tuple? {
      var arr := token.tokens;
      var valueArray := new HostValue[|arr|](_ => JsUndefined);
      for i := 0 to |arr|
        invariant forall k :: 0 <= k < i ==> valueArray[k] == Rendered(toDecimal, arr[k])
      {
        var result := TokenizeOut(toDecimal, arr[i]);
        valueArray[i] := result.value;
      }
      assert valueArray[..] == RenderedElements(toDecimal, arr);
      return Ok(JsArray(valueArray[..]));
    }
    match token
    case Bool(b) => r := Ok(JsBoolean(b));
    case String(s) => r := Ok(JsString(s));
    case Address(a) => r := Ok(JsString(HexPrefix + HexEncode(a)));
    case Bytes(b) => r := Ok(JsString(HexPrefix + HexEncode(b)));
    case FixedBytes(b) => r := Ok(JsString(HexPrefix + HexEncode(b)));
    case Uint(w) => r := Ok(JsString(toDecimal(w)));
    case Int(w) => r := Ok(JsString(toDecimal(w)));
  }

  predicate ByteLike(t: Token)
  {
    t.Address? || t.Bytes? || t.FixedBytes?
  }

  /** The raw bytes of a byte-like token. */
  function ByteContent(t: Token): seq<byte>
    requires ByteLike(t)
  {
    if t.Address? then t.address else t.bytes
  }

  /** A byte-like token becomes "0x" followed by two lowercase hex digits
      per byte, which `hex::decode` reads back to the same bytes; an
      address is therefore always 42 bytes of text. */
  lemma {:induction false} RenderedHex(toDecimal: Word -> seq<byte>, t: Token)
    requires ByteLike(t)
    ensures Rendered(toDecimal, t).JsString?
    ensures var s := Rendered(toDecimal, t).text;
            |s| == 2 + 2 * |ByteContent(t)| && s[..2] == HexPrefix &&
            (forall k :: 2 <= k < |s| ==> IsLowerHexDigit(s[k])) &&
            HexDecode(s[2..]) == Some(ByteContent(t))
    ensures t.Address? ==> |Rendered(toDecimal, t).text| == 42
  {
    var b := ByteContent(t);
    var s := HexPrefix + HexEncode(b);
    assert Rendered(toDecimal, t) == JsString(s);
    assert s[2..] == HexEncode(b);
    assert forall k :: 2 <= k < |s| ==> s[k] == HexEncode(b)[k - 2];
    HexDecodeEncode(b);
  }

  /** `remove_hex_prefix` applied to the text of a byte-like token does not
      panic and gives back exactly the bare hex encoding of its bytes. */
  lemma {:induction false} PrefixRoundTrip(toDecimal: Word -> seq<byte>, t: Token)
    requires ByteLike(t)
    ensures var s := Rendered(toDecimal, t).text;
            CanSliceAt(s, 2) && RemoveHexPrefix(s) == HexEncode(ByteContent(t))
  {
    var b := ByteContent(t);
    var s := HexPrefix + HexEncode(b);
    assert Rendered(toDecimal, t) == JsString(s);
    PrefixedHexSlices(b);
    assert s[2..] == HexEncode(b);
  }

  /** A value built only from booleans, strings and arrays of such. */
  predicate PlainValue(v: HostValue)
  {
    match v
    case JsBoolean(_) => true
    case JsString(_) => true
    case JsArray(vs) => forall k :: 0 <= k < |vs| ==> PlainValue(vs[k])
    case _ => false
  }

  /** `tokenize_out` never produces a number, null, undefined or an object:
      integers come back as decimal text, composites as arrays. */
  lemma {:induction false} RenderedPlain(toDecimal: Word -> seq<byte>, t: Token)
    ensures PlainValue(Rendered(toDecimal, t))
    decreases t
  {
    match t
    case Array(ts) => RenderedElementsPlain(toDecimal, t, ts);
    case FixedArray(ts) => RenderedElementsPlain(toDecimal, t, ts);
    case Tuple(ts) => RenderedElementsPlain(toDecimal, t, ts);
    case _ =>
  }

  lemma {:induction false} RenderedElementsPlain(toDecimal: Word -> seq<byte>, t: Token, ts: seq<Token>)
    requires (t.Array? || t.FixedArray? || t.Tuple?) && ts == t.tokens
    ensures PlainValue(Rendered(toDecimal, t))
    decreases t, 0
  {
    forall k | 0 <= k < |ts|
      ensures PlainValue(Rendered(toDecimal, ts[k]))
    {
      RenderedPlain(toDecimal, ts[k]);
    }
  }

  /** The output does not say which variant it came from: the three
      composite variants over the same tokens, and the two integer variants
      over the same word, give the same value, so the caller needs the ABI
      to read it back. */
  lemma {:induction false} RenderedForgetsVariant(toDecimal: Word -> seq<byte>, ts: seq<Token>, w: Word)
    ensures Rendered(toDecimal, Token.Array(ts)) == Rendered(toDecimal, Token.FixedArray(ts)) == Rendered(toDecimal, Token.Tuple(ts))
    ensures Rendered(toDecimal, Token.Uint(w)) == Rendered(toDecimal, Token.Int(w))
  {
  }
}
