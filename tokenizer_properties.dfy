/** What the tokenizer guarantees: shape preservation, element order,
    all-or-nothing errors, and the length rules the code actually applies. */
module TokenizerProperties {

  import opened Results
  import opened Text
  import opened Abi
  import opened Host
  import opened Tokenizer

  // One-step unfoldings of `tokenize` on composite types, kept apart so
  // that each proof below pays for one step at a time.

  lemma {:induction false} ElementsCollected(L: Lenient, e: ParamType, vs: seq<HostValue>)
    ensures TokenizedArray(L, e, JsArray(vs)) == Collect(ElementResults(L, e, vs))
  {
  }

  lemma {:induction false} ArrayWrapped(L: Lenient, e: ParamType, n: nat, v: HostValue)
    ensures var r := TokenizedArray(L, e, v);
            Tokenized(L, ParamType.Array(e), v) == (if r.Ok? then Ok(Token.Array(r.value)) else Err(r.error)) &&
            Tokenized(L, ParamType.FixedArray(e, n), v) == (if r.Ok? then Ok(Token.FixedArray(r.value)) else Err(r.error))
  {
  }

  lemma {:induction false} FieldsCollected(L: Lenient, ps: seq<ParamType>, vs: seq<HostValue>)
    ensures TokenizedStruct(L, ps, JsArray(vs)) == Collect(FieldResults(L, ps, vs))
  {
  }

  lemma {:induction false} TupleWrapped(L: Lenient, ps: seq<ParamType>, v: HostValue)
    ensures var r := TokenizedStruct(L, ps, v);
            Tokenized(L, ParamType.Tuple(ps), v) == if r.Ok? then Ok(Token.Tuple(r.value)) else Err(r.error)
  {
  }

  /** `tokenize` on an array type is `tokenize_array` wrapped in the token
      variant; on a tuple type, `tokenize_struct` wrapped likewise. */
  lemma {:induction false} ArrayUnfold(L: Lenient, e: ParamType, vs: seq<HostValue>)
    ensures var r := Collect(ElementResults(L, e, vs));
            Tokenized(L, ParamType.Array(e), JsArray(vs)) ==
              if r.Ok? then Ok(Token.Array(r.value)) else Err(r.error)
  {
    ElementsCollected(L, e, vs);
    ArrayWrapped(L, e, 0, JsArray(vs));
  }

  lemma {:induction false} TupleUnfold(L: Lenient, ps: seq<ParamType>, vs: seq<HostValue>)
    ensures var r := Collect(FieldResults(L, ps, vs));
            Tokenized(L, ParamType.Tuple(ps), JsArray(vs)) ==
              if r.Ok? then Ok(Token.Tuple(r.value)) else Err(r.error)
  {
    FieldsCollected(L, ps, vs);
    TupleWrapped(L, ps, JsArray(vs));
  }

  /** A value with no component to tokenize it against is an error. */
  lemma {:induction false} TooManyFieldsFail(L: Lenient, ps: seq<ParamType>, vs: seq<HostValue>)
    requires |vs| > |ps|
    ensures Collect(FieldResults(L, ps, vs)).Err?
  {
    CollectErrIfAnyErr(FieldResults(L, ps, vs), |ps|);
  }

  /** Every token `tokenize` builds has the variant paired with its type,
      all the way down. */
  lemma {:induction false} TokenizedConforms(L: Lenient, p: ParamType, v: HostValue)
    requires Tokenized(L, p, v).Ok?
    ensures Conforms(p, Tokenized(L, p, v).value)
    decreases p, 1
  {
    match p
    case Array(e) =>
      ArrayWrapped(L, e, 0, v);
      ElementsConform(L, e, v);
    case FixedArray(e, n) =>
      ArrayWrapped(L, e, n, v);
      ElementsConform(L, e, v);
    case Tuple(ps) =>
      TupleWrapped(L, ps, v);
      FieldsConform(L, ps, v);
    case _ =>
      LeafConforms(L, p, v);
  }

  lemma {:induction false} LeafConforms(L: Lenient, p: ParamType, v: HostValue)
    requires !p.Array? && !p.FixedArray? && !p.Tuple?
    requires Tokenized(L, p, v).Ok?
    ensures Conforms(p, Tokenized(L, p, v).value)
  {
  }

  lemma {:induction false} ElementsConform(L: Lenient, e: ParamType, v: HostValue)
    requires TokenizedArray(L, e, v).Ok?
    ensures forall k :: 0 <= k < |TokenizedArray(L, e, v).value| ==>
              Conforms(e, TokenizedArray(L, e, v).value[k])
    decreases e, 2
  {
    var ts := TokenizedArray(L, e, v).value;
    var vs := v.elements;
    var rs := ElementResults(L, e, vs);
    ElementsCollected(L, e, vs);
    CollectOk(rs, ts);
    forall k | 0 <= k < |ts| ensures Conforms(e, ts[k]) {
      assert rs[k] == Tokenized(L, e, vs[k]);
      TokenizedConforms(L, e, vs[k]);
    }
  }

  lemma {:induction false} FieldsConform(L: Lenient, ps: seq<ParamType>, v: HostValue)
    requires TokenizedStruct(L, ps, v).Ok?
    ensures var ts := TokenizedStruct(L, ps, v).value;
            |ts| <= |ps| && forall k :: 0 <= k < |ts| ==> Conforms(ps[k], ts[k])
    decreases ps, 2
  {
    var ts := TokenizedStruct(L, ps, v).value;
    var vs := v.elements;
    var rs := FieldResults(L, ps, vs);
    FieldsCollected(L, ps, vs);
    if |vs| > |ps| {
      TooManyFieldsFail(L, ps, vs);
    }
    CollectOk(rs, ts);
    forall k | 0 <= k < |ts| ensures Conforms(ps[k], ts[k]) {
      assert rs[k] == Tokenized(L, ps[k], vs[k]);
      TokenizedConforms(L, ps[k], vs[k]);
    }
  }

  /** An array is tokenized element by element, in order, against the one
      element type: the result is an array token with one token per
      element, token k being what element k tokenizes to. */
  lemma {:induction false} ArrayTokens(L: Lenient, e: ParamType, vs: seq<HostValue>, ts: seq<Token>)
    ensures Tokenized(L, ParamType.Array(e), JsArray(vs)) == Ok(Token.Array(ts)) <==>
            |ts| == |vs| && forall k :: 0 <= k < |vs| ==> Tokenized(L, e, vs[k]) == Ok(ts[k])
  {
    var rs := ElementResults(L, e, vs);
    assert forall k :: 0 <= k < |vs| ==> rs[k] == Tokenized(L, e, vs[k]);
    ArrayUnfold(L, e, vs);
    CollectOk(rs, ts);
  }

  /** An array tokenizes exactly when each of its elements does. */
  lemma {:induction false} ArraySucceeds(L: Lenient, e: ParamType, vs: seq<HostValue>)
    ensures Tokenized(L, ParamType.Array(e), JsArray(vs)).Ok? <==>
            forall k :: 0 <= k < |vs| ==> Tokenized(L, e, vs[k]).Ok?
  {
    var rs := ElementResults(L, e, vs);
    assert forall k :: 0 <= k < |vs| ==> rs[k] == Tokenized(L, e, vs[k]);
    ArrayUnfold(L, e, vs);
    var r := Collect(rs);
    if r.Ok? {
      CollectOk(rs, r.value);
    } else {
      CollectErrHasFirstError(rs);
    }
  }

  /** A fixed array is tokenized exactly as a dynamic one: its declared
      length is never compared with the number of values. */
  lemma {:induction false} FixedArrayIgnoresLength(L: Lenient, e: ParamType, n: nat, v: HostValue)
    ensures var r := Tokenized(L, ParamType.Array(e), v);
            Tokenized(L, ParamType.FixedArray(e, n), v) ==
              if r.Ok? then Ok(Token.FixedArray(r.value.tokens)) else r
  {
    ArrayWrapped(L, e, n, v);
  }

  /** The first element that fails decides the error of the whole array;
      and whenever the array fails, some first element failed with it. */
  lemma {:induction false} ArrayFirstError(L: Lenient, e: ParamType, vs: seq<HostValue>, i: nat)
    requires i < |vs| && Tokenized(L, e, vs[i]).Err?
    requires forall j :: 0 <= j < i ==> Tokenized(L, e, vs[j]).Ok?
    ensures Tokenized(L, ParamType.Array(e), JsArray(vs)) == Err(Tokenized(L, e, vs[i]).error)
  {
    var rs := ElementResults(L, e, vs);
    assert FirstErrorAt(rs, i);
    CollectFirstError(rs, i);
    ArrayUnfold(L, e, vs);
  }

  lemma {:induction false} ArrayErrorHasCause(L: Lenient, e: ParamType, vs: seq<HostValue>)
    requires Tokenized(L, ParamType.Array(e), JsArray(vs)).Err?
    ensures exists i: nat :: i < |vs| && Tokenized(L, e, vs[i]).Err? &&
              (forall j :: 0 <= j < i ==> Tokenized(L, e, vs[j]).Ok?) &&
              Tokenized(L, ParamType.Array(e), JsArray(vs)) == Err(Tokenized(L, e, vs[i]).error)
  {
    var rs := ElementResults(L, e, vs);
    ArrayUnfold(L, e, vs);
    CollectErrHasFirstError(rs);
    var i: nat :| FirstErrorAt(rs, i) && Collect(rs) == Err(rs[i].error);
    assert forall j :: 0 <= j < |vs| ==> rs[j] == Tokenized(L, e, vs[j]);
  }

  /** A tuple pairs value k with component k: the result is a tuple token
      with one field per value, and there may be fewer values than
      components (a shorter tuple) but not more. */
  lemma {:induction false} TupleTokens(L: Lenient, ps: seq<ParamType>, vs: seq<HostValue>, ts: seq<Token>)
    ensures Tokenized(L, ParamType.Tuple(ps), JsArray(vs)) == Ok(Token.Tuple(ts)) <==>
            |ts| == |vs| <= |ps| && forall k :: 0 <= k < |vs| ==> Tokenized(L, ps[k], vs[k]) == Ok(ts[k])
  {
    var rs := FieldResults(L, ps, vs);
    assert forall k :: 0 <= k < |vs| && k < |ps| ==> rs[k] == Tokenized(L, ps[k], vs[k]);
    TupleUnfold(L, ps, vs);
    if |vs| > |ps| {
      TooManyFieldsFail(L, ps, vs);
    }
    CollectOk(rs, ts);
  }

  /** A tuple tokenizes exactly when it has no more values than components
      and each value tokenizes against its component. */
  lemma {:induction false} TupleSucceeds(L: Lenient, ps: seq<ParamType>, vs: seq<HostValue>)
    ensures Tokenized(L, ParamType.Tuple(ps), JsArray(vs)).Ok? <==>
            |vs| <= |ps| && forall k :: 0 <= k < |vs| ==> Tokenized(L, ps[k], vs[k]).Ok?
  {
    var rs := FieldResults(L, ps, vs);
    assert forall k :: 0 <= k < |vs| && k < |ps| ==> rs[k] == Tokenized(L, ps[k], vs[k]);
    TupleUnfold(L, ps, vs);
    if |vs| > |ps| {
      TooManyFieldsFail(L, ps, vs);
    }
    var r := Collect(rs);
    if r.Ok? {
      CollectOk(rs, r.value);
    } else {
      CollectErrHasFirstError(rs);
      var i: nat :| FirstErrorAt(rs, i);
      if i < |ps| {
        assert Tokenized(L, ps[i], vs[i]).Err?;
      }
    }
  }

  /** More values than components fail with `InvalidData`, provided the
      values that do have a component all tokenize. */
  lemma {:induction false} TupleTooManyValues(L: Lenient, ps: seq<ParamType>, vs: seq<HostValue>)
    requires |vs| > |ps|
    requires forall k :: 0 <= k < |ps| ==> Tokenized(L, ps[k], vs[k]).Ok?
    ensures Tokenized(L, ParamType.Tuple(ps), JsArray(vs)) == Err(Abi(InvalidData))
  {
    var rs := FieldResults(L, ps, vs);
    assert forall k :: 0 <= k < |ps| ==> rs[k] == Tokenized(L, ps[k], vs[k]);
    assert FirstErrorAt(rs, |ps|);
    CollectFirstError(rs, |ps|);
    TupleUnfold(L, ps, vs);
  }

  /** The first failing value decides the error of the whole tuple. */
  lemma {:induction false} TupleFirstError(L: Lenient, ps: seq<ParamType>, vs: seq<HostValue>, i: nat)
    requires i < |vs| && i < |ps| && Tokenized(L, ps[i], vs[i]).Err?
    requires forall j :: 0 <= j < i ==> Tokenized(L, ps[j], vs[j]).Ok?
    ensures Tokenized(L, ParamType.Tuple(ps), JsArray(vs)) == Err(Tokenized(L, ps[i], vs[i]).error)
  {
    var rs := FieldResults(L, ps, vs);
    assert forall k :: 0 <= k <= i ==> rs[k] == Tokenized(L, ps[k], vs[k]);
    assert FirstErrorAt(rs, i);
    CollectFirstError(rs, i);
    TupleUnfold(L, ps, vs);
  }

  /** Composite types demand a JavaScript array: anything else panics, in
      the downcast for arrays and in the explicit `panic!` for tuples. */
  lemma {:induction false} NonArrayPanics(L: Lenient, p: ParamType, v: HostValue)
    requires p.Array? || p.FixedArray? || p.Tuple?
    requires !v.JsArray?
    ensures Tokenized(L, p, v) ==
            Err(Panic(if p.Tuple? then UnsupportedObjectStructure else NotAnArray))
  {
  }

  /** Integer widths and fixed-array lengths play no part in tokenizing,
      and a JavaScript number is parsed as the text `to_string` gives it. */
  lemma {:induction false} DeclaredSizesIgnored(L: Lenient, b1: nat, b2: nat, e: ParamType, n1: nat, n2: nat, v: HostValue)
    ensures Tokenized(L, ParamType.Uint(b1), v) == Tokenized(L, ParamType.Uint(b2), v)
    ensures Tokenized(L, ParamType.Int(b1), v) == Tokenized(L, ParamType.Int(b2), v)
    ensures Tokenized(L, ParamType.FixedArray(e, n1), v) == Tokenized(L, ParamType.FixedArray(e, n2), v)
    ensures v.JsNumber? ==>
            Tokenized(L, ParamType.Uint(b1), v) == Tokenized(L, ParamType.Uint(b1), JsString(L.f64ToString(v.number))) &&
            Tokenized(L, ParamType.Int(b1), v) == Tokenized(L, ParamType.Int(b1), JsString(L.f64ToString(v.number)))
  {
  }

  /** What the leaf wrappers hand to the parsers: a string argument's text,
      a hex argument's text without its "0x", a number argument's text;
      every other JavaScript value panics in the downcast. */
  lemma {:induction false} StringArgument(v: HostValue)
    ensures StringArg(v).Ok? <==> v.JsString?
    ensures StringArg(v).Ok? ==> StringArg(v).value == v.text
    ensures StringArg(v).Err? ==> StringArg(v).error == Panic(NotAString)
  {
  }

  lemma {:induction false} HexArgument(v: HostValue)
    ensures HexArg(v).Ok? <==> v.JsString? && CanSliceAt(v.text, 2)
    ensures HexArg(v).Ok? ==> HexArg(v).value == RemoveHexPrefix(v.text)
    ensures HexArg(v).Err? ==> HexArg(v).error == Panic(if v.JsString? then SliceOutOfBounds else NotAString)
  {
  }

  lemma {:induction false} NumberArgument(L: Lenient, v: HostValue)
    ensures NumberArg(L, v).Ok? <==> v.JsNumber? || v.JsString?
    ensures v.JsNumber? ==> NumberArg(L, v) == Ok(L.f64ToString(v.number))
    ensures v.JsString? ==> NumberArg(L, v) == Ok(v.text)
    ensures NumberArg(L, v).Err? ==> NumberArg(L, v).error == Panic(NotAString)
  {
  }

  predicate HexLike(p: ParamType)
  {
    p.Address? || p.Bytes? || p.FixedBytes?
  }

  /** Address and byte arguments go through `remove_hex_prefix`, whose
      unconditional slice panics on text of fewer than two bytes (so ""
      panics while "0x" reaches the parser) or when byte 2 is inside a
      multi-byte character. */
  lemma {:induction false} ShortHexTextPanics(L: Lenient, p: ParamType, s: seq<byte>)
    requires HexLike(p) && !CanSliceAt(s, 2)
    ensures Tokenized(L, p, JsString(s)) == Err(Panic(SliceOutOfBounds))
  {
  }

  /** The "0x" prefix is optional: with or without it, the parser sees the
      same digits. */
  lemma {:induction false} OptionalHexPrefix(L: Lenient, p: ParamType, h: seq<byte>)
    requires HexLike(p) && CanSliceAt(h, 2) && h[..2] != HexPrefix
    requires !(0x80 <= h[0] < 0xC0)  // h starts on a character, as UTF-8 text does
    ensures Tokenized(L, p, JsString(HexPrefix + h)) == Tokenized(L, p, JsString(h))
  {
    var s := HexPrefix + h;
    assert s[..2] == HexPrefix && s[2..] == h && s[2] == h[0];
    assert HexArg(JsString(s)) == Ok(h);
    HexArgument(JsString(h));
    HexLeafReadsHexArg(L, p, JsString(s), JsString(h));
  }

  /** An address or bytes argument is seen only through `HexArg`. */
  lemma {:induction false} HexLeafReadsHexArg(L: Lenient, p: ParamType, v: HostValue, w: HostValue)
    requires HexLike(p) && HexArg(v) == HexArg(w)
    ensures Tokenized(L, p, v) == Tokenized(L, p, w)
  {
    assert Tokenized(L, p, v) == TokenizedLeaf(L, p, v);
    assert Tokenized(L, p, w) == TokenizedLeaf(L, p, w);
  }

  /** `parse_tokens` gives one token per argument, in order, and succeeds
      exactly when every argument tokenizes; otherwise it reports the first
      argument's failure (ParseTokensFirstError). */
  lemma {:induction false} ParseTokensElementwise(L: Lenient, params: seq<(ParamType, HostValue)>, ts: seq<Token>)
    ensures ParseTokens(L, params) == Ok(ts) <==>
            |ts| == |params| &&
            forall k :: 0 <= k < |params| ==> Tokenized(L, params[k].0, params[k].1) == Ok(ts[k])
  {
    var rs := ArgumentResults(L, params);
    assert forall k :: 0 <= k < |params| ==> rs[k] == Tokenized(L, params[k].0, params[k].1);
    CollectOk(rs, ts);
  }

  lemma {:induction false} ParseTokensSucceeds(L: Lenient, params: seq<(ParamType, HostValue)>)
    ensures ParseTokens(L, params).Ok? <==>
            forall k :: 0 <= k < |params| ==> Tokenized(L, params[k].0, params[k].1).Ok?
  {
    var rs := ArgumentResults(L, params);
    assert forall k :: 0 <= k < |params| ==> rs[k] == Tokenized(L, params[k].0, params[k].1);
    var r := Collect(rs);
    if r.Ok? {
      CollectOk(rs, r.value);
    } else {
      CollectErrHasFirstError(rs);
    }
  }

  lemma {:induction false} ParseTokensFirstError(L: Lenient, params: seq<(ParamType, HostValue)>, i: nat)
    requires i < |params| && Tokenized(L, params[i].0, params[i].1).Err?
    requires forall j :: 0 <= j < i ==> Tokenized(L, params[j].0, params[j].1).Ok?
    ensures ParseTokens(L, params) == Err(Tokenized(L, params[i].0, params[i].1).error)
  {
    var rs := ArgumentResults(L, params);
    assert FirstErrorAt(rs, i);
    CollectFirstError(rs, i);
  }
}
