/** Feeding what `tokenize_out` produces back into `tokenize`: the exact
    condition under which a token tree survives the trip. */
module RoundTrip {

  import opened Results
  import opened Text
  import opened Abi
  import opened Host
  import opened Tokenizer
  import opened TokenizerProperties
  import opened Output

  /** `t` has the shape `p` calls for, and each of its leaves is read back
      by the foreign parser it meets to the value it came from. */
  ghost predicate Reparses(L: Lenient, toDecimal: Word -> seq<byte>, p: ParamType, t: Token)
    decreases p
  {
    SameVariant(p, t) &&
    match p
    case Address => L.parseAddress(HexEncode(t.address)) == Ok(t.address)
    case Bytes => L.parseBytes(HexEncode(t.bytes)) == Ok(t.bytes)
    case FixedBytes(n) => L.parseFixedBytes(HexEncode(t.bytes), n) == Ok(t.bytes)
    case String => L.parseString(t.text) == Ok(t.text)
    case Bool => true
    case Uint(_) => L.parseUint(toDecimal(t.word)) == Ok(t.word)
    case Int(_) => L.parseInt(toDecimal(t.word)) == Ok(t.word)
    case Array(e) =>
      forall k :: 0 <= k < |t.tokens| ==> Reparses(L, toDecimal, e, t.tokens[k])
    case FixedArray(e, _) =>
      forall k :: 0 <= k < |t.tokens| ==> Reparses(L, toDecimal, e, t.tokens[k])
    case Tuple(ps) =>
      |t.tokens| <= |ps| &&
      forall k :: 0 <= k < |t.tokens| ==> Reparses(L, toDecimal, ps[k], t.tokens[k])
  }

  /** The rendered text of a byte-like leaf reaches its parser as bare hex. */
  lemma HexArgOfRendered(bs: seq<byte>)
    ensures HexArg(JsString(HexPrefix + HexEncode(bs))) == Ok(HexEncode(bs))
  {
    PrefixedHexSlices(bs);
    assert (HexPrefix + HexEncode(bs))[2..] == HexEncode(bs);
  }

  /** Tokenizing the rendering of `t` against `p` gives back `t` exactly
      when `t` reparses against `p`. */
  lemma {:induction false} RenderThenTokenize(L: Lenient, toDecimal: Word -> seq<byte>, p: ParamType, t: Token)
    ensures Tokenized(L, p, Rendered(toDecimal, t)) == Ok(t) <==> Reparses(L, toDecimal, p, t)
    decreases p, 1
  {
    if !SameVariant(p, t) {
      assert Tokenized(L, p, Rendered(toDecimal, t)) != Ok(t);
    } else if p.Array? || p.FixedArray? {
      ArrayRenderThenTokenize(L, toDecimal, p, t);
    } else if p.Tuple? {
      TupleRenderThenTokenize(L, toDecimal, p, t);
    } else {
      LeafRenderThenTokenize(L, toDecimal, p, t);
    }
  }

  lemma {:induction false} LeafRenderThenTokenize(L: Lenient, toDecimal: Word -> seq<byte>, p: ParamType, t: Token)
    requires SameVariant(p, t) && !(p.Array? || p.FixedArray? || p.Tuple?)
    ensures Tokenized(L, p, Rendered(toDecimal, t)) == Ok(t) <==> Reparses(L, toDecimal, p, t)
  {
    match p
    case Address => HexArgOfRendered(t.address);
    case Bytes => HexArgOfRendered(t.bytes);
    case FixedBytes(_) => HexArgOfRendered(t.bytes);
    case String =>
    case Bool =>
    case Uint(_) =>
    case Int(_) =>
  }

  lemma {:induction false} ArrayRenderThenTokenize(L: Lenient, toDecimal: Word -> seq<byte>, p: ParamType, t: Token)
    requires SameVariant(p, t) && (p.Array? || p.FixedArray?)
    ensures Tokenized(L, p, Rendered(toDecimal, t)) == Ok(t) <==> Reparses(L, toDecimal, p, t)
    decreases p, 0
  {
    var v := Rendered(toDecimal, t);
    ArrayTokens(L, p.elem, v.elements, t.tokens);
    if p.FixedArray? {
      FixedArrayIgnoresLength(L, p.elem, p.len, v);
    }
    ElementsReparse(L, toDecimal, p.elem, t.tokens);
  }

  lemma {:induction false} TupleRenderThenTokenize(L: Lenient, toDecimal: Word -> seq<byte>, p: ParamType, t: Token)
    requires SameVariant(p, t) && p.Tuple?
    ensures Tokenized(L, p, Rendered(toDecimal, t)) == Ok(t) <==> Reparses(L, toDecimal, p, t)
    decreases p, 0
  {
    var v := Rendered(toDecimal, t);
    TupleTokens(L, p.components, v.elements, t.tokens);
    if |t.tokens| <= |p.components| {
      FieldsReparse(L, toDecimal, p.components, t.tokens);
    }
  }

  lemma {:induction false} ElementsReparse(L: Lenient, toDecimal: Word -> seq<byte>, e: ParamType, ts: seq<Token>)
    ensures (forall k :: 0 <= k < |ts| ==> Tokenized(L, e, Rendered(toDecimal, ts[k])) == Ok(ts[k])) <==>
            (forall k :: 0 <= k < |ts| ==> Reparses(L, toDecimal, e, ts[k]))
    decreases e, 2
  {
    forall k | 0 <= k < |ts|
      ensures Tokenized(L, e, Rendered(toDecimal, ts[k])) == Ok(ts[k]) <==> Reparses(L, toDecimal, e, ts[k])
    {
      RenderThenTokenize(L, toDecimal, e, ts[k]);
    }
  }

  lemma {:induction false} FieldsReparse(L: Lenient, toDecimal: Word -> seq<byte>, ps: seq<ParamType>, ts: seq<Token>)
    requires |ts| <= |ps|
    ensures (forall k :: 0 <= k < |ts| ==> Tokenized(L, ps[k], Rendered(toDecimal, ts[k])) == Ok(ts[k])) <==>
            (forall k :: 0 <= k < |ts| ==> Reparses(L, toDecimal, ps[k], ts[k]))
    decreases ps, 2
  {
    forall k | 0 <= k < |ts|
      ensures Tokenized(L, ps[k], Rendered(toDecimal, ts[k])) == Ok(ts[k]) <==> Reparses(L, toDecimal, ps[k], ts[k])
    {
      RenderThenTokenize(L, toDecimal, ps[k], ts[k]);
    }
  }
}
