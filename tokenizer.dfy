/** The type-directed tokenizer of `native/src/lib.rs`: it walks a
    `ParamType` and a JavaScript value together and builds a `Token`.
    `tokenize` and `parse_tokens` are pure; `tokenize_array` and
    `tokenize_struct` are loops, modelled as methods proved equal to the
    functions that specify them. */
module Tokenizer {

  import opened Results
  import opened Text
  import opened Abi
  import opened Host

  /** The foreign code the tokenizer calls: the six `LenientTokenizer`
      parsers of ethabi and `f64::to_string`. Their behaviour is not
      visible, so they are parameters. */
  datatype Lenient = Lenient(
    parseAddress: seq<byte> -> Result<AddressBytes, AbiError>,
    parseString: seq<byte> -> Result<seq<byte>, AbiError>,
    parseBytes: seq<byte> -> Result<seq<byte>, AbiError>,
    parseFixedBytes: (seq<byte>, nat) -> Result<seq<byte>, AbiError>,
    parseUint: seq<byte> -> Result<Word, AbiError>,
    parseInt: seq<byte> -> Result<Word, AbiError>,
    f64ToString: real -> seq<byte>)

  function Lift<T>(r: Result<T, AbiError>): Result<T, Failure>
  {
    match r
    case Ok(x) => Ok(x)
    case Err(e) => Err(Abi(e))
  }

  /** `value.downcast::<JsString>().unwrap().value()`. */
  function StringArg(v: HostValue): Result<seq<byte>, Failure>
  {
    if v.JsString? then Ok(v.text) else Err(Panic(NotAString))
  }

  /** A string argument passed through `remove_hex_prefix`. */
  function HexArg(v: HostValue): Result<seq<byte>, Failure>
  {
    var s :- StringArg(v);
    if CanSliceAt(s, 2) then Ok(RemoveHexPrefix(s)) else Err(Panic(SliceOutOfBounds))
  }

  /** The text `tokenize_uint` and `tokenize_int` parse: a number is
      rendered with `to_string`, anything else must be a string. */
  function NumberArg(L: Lenient, v: HostValue): Result<seq<byte>, Failure>
  {
    if v.JsNumber? then Ok(L.f64ToString(v.number)) else StringArg(v)
  }

  /** `tokenize_bool`: the value must be a JavaScript boolean. */
  function TokenizeBool(v: HostValue): (r: Result<bool, Failure>)
    ensures r.Ok? <==> v.JsBoolean?
    ensures r.Ok? ==> r.value == v.flag
    ensures r.Err? ==> r.error == Panic(NotABoolean)
  {
    if v.JsBoolean? then Ok(v.flag) else Err(Panic(NotABoolean))
  }

  /** `tokenize`: one token for `v`, or the first failure met. */
  function Tokenized(L: Lenient, p: ParamType, v: HostValue): (r: Result<Token, Failure>)
    decreases p, 0
    ensures r.Ok? ==> SameVariant(p, r.value)
  {
    match p
    case Array(e) =>
      var ts :- TokenizedArray(L, e, v);
      Ok(Token.Array(ts))
    case FixedArray(e, _) =>
      var ts :- TokenizedArray(L, e, v);
      Ok(Token.FixedArray(ts))
    case Tuple(ps) =>
      var ts :- TokenizedStruct(L, ps, v);
      Ok(Token.Tuple(ts))
    case _ => TokenizedLeaf(L, p, v)
  }

  /** The leaf arms of `tokenize`: each reads its argument, hands it to the
      matching `LenientTokenizer` parser and wraps the result. */
  function TokenizedLeaf(L: Lenient, p: ParamType, v: HostValue): (r: Result<Token, Failure>)
    requires !(p.Array? || p.FixedArray? || p.Tuple?)
    ensures r.Ok? ==> SameVariant(p, r.value)
  {
    match p
    case Address =>
      var s :- HexArg(v);
      var a :- Lift(L.parseAddress(s));
      Ok(Token.Address(a))
    case String =>
      var s :- StringArg(v);
      var t :- Lift(L.parseString(s));
      Ok(Token.String(t))
    case Bool =>
      var b :- TokenizeBool(v);
      Ok(Token.Bool(b))
    case Bytes =>
      var s :- HexArg(v);
      var b :- Lift(L.parseBytes(s));
      Ok(Token.Bytes(b))
    case FixedBytes(len) =>
      var s :- HexArg(v);
      var b :- Lift(L.parseFixedBytes(s, len));
      Ok(Token.FixedBytes(b))
    case Uint(_) =>
      var s :- NumberArg(L, v);
      var w :- Lift(L.parseUint(s));
      Ok(Token.Uint(w))
    case Int(_) =>
      var s :- NumberArg(L, v);
      var w :- Lift(L.parseInt(s));
      Ok(Token.Int(w))
  }

  /** What tokenizing each element of `vs` against `e` gives, in order. */
  function ElementResults(L: Lenient, e: ParamType, vs: seq<HostValue>): (rs: seq<Result<Token, Failure>>)
    decreases e, 1
    ensures |rs| == |vs|
  {
    seq(|vs|, k requires 0 <= k < |vs| => Tokenized(L, e, vs[k]))
  }

  /** What tokenizing value k against component k gives; a value past the
      last component is `InvalidData`, as `params.next().ok_or(...)` makes it. */
  function FieldResults(L: Lenient, ps: seq<ParamType>, vs: seq<HostValue>): (rs: seq<Result<Token, Failure>>)
    decreases ps, 1
    ensures |rs| == |vs|
  {
    seq(|vs|, k requires 0 <= k < |vs| =>
      if k < |ps| then Tokenized(L, ps[k], vs[k]) else Err(Abi(InvalidData)))
  }

  /** Specification of `tokenize_array`. */
  function TokenizedArray(L: Lenient, e: ParamType, v: HostValue): Result<seq<Token>, Failure>
    decreases e, 2
  {
    if v.JsArray? then Collect(ElementResults(L, e, v.elements)) else Err(Panic(NotAnArray))
  }

  /** Specification of `tokenize_struct`. */
  function TokenizedStruct(L: Lenient, ps: seq<ParamType>, v: HostValue): Result<seq<Token>, Failure>
    decreases ps, 2
  {
    if v.JsArray? then Collect(FieldResults(L, ps, v.elements))
    else Err(Panic(UnsupportedObjectStructure))
  }

  /** `tokenize_array`: tokenize every element against `param`, pushing
      each token, and return the first error. */
  method TokenizeArray(L: Lenient, value: HostValue, param: ParamType) returns (r: Result<seq<Token>, Failure>)
    ensures r == TokenizedArray(L, param, value)
  {
    if !value.JsArray? {
      return Err(Panic(NotAnArray));
    }
    var arr := value.elements;
    var result: seq<Token> := [];
    for i := 0 to |arr|
      invariant |result| == i
      invariant forall k :: 0 <= k < i ==> Tokenized(L, param, arr[k]) == Ok(result[k])
    {
      var token := Tokenized(L, param, arr[i]);
      if token.Err? {
        ArrayStopsAt(L, param, arr, i);
        return Err(token.error);
      }
      result := result + [token.value];
    }
    ArrayCompletes(L, param, arr, result);
    return Ok(result);
  }

  /** The two ways out of the loop of `tokenize_array`. */
  lemma ArrayCompletes(L: Lenient, e: ParamType, vs: seq<HostValue>, ts: seq<Token>)
    requires |ts| == |vs| && forall k :: 0 <= k < |vs| ==> Tokenized(L, e, vs[k]) == Ok(ts[k])
    ensures TokenizedArray(L, e, JsArray(vs)) == Ok(ts)
  {
    var rs := ElementResults(L, e, vs);
    assert forall k :: 0 <= k < |vs| ==> rs[k] == Ok(ts[k]);
    CollectAllOk(rs, ts);
  }

  lemma ArrayStopsAt(L: Lenient, e: ParamType, vs: seq<HostValue>, i: nat)
    requires i < |vs| && Tokenized(L, e, vs[i]).Err?
    requires forall k :: 0 <= k < i ==> Tokenized(L, e, vs[k]).Ok?
    ensures TokenizedArray(L, e, JsArray(vs)) == Err(Tokenized(L, e, vs[i]).error)
  {
    var rs := ElementResults(L, e, vs);
    assert forall k :: 0 <= k <= i ==> rs[k] == Tokenized(L, e, vs[k]);
    CollectStopsAt(rs, i);
  }

  /** `tokenize_struct`: an array's values are paired in order with the
      components, read off an iterator; running out of components is
      `InvalidData`, and a non-array value panics. */
  method TokenizeStruct(L: Lenient, value: HostValue, param: seq<ParamType>) returns (r: Result<seq<Token>, Failure>)
    ensures r == TokenizedStruct(L, param, value)
  {
    if !value.JsArray? {
      return Err(Panic(UnsupportedObjectStructure));
    }
    var arr := value.elements;
    var params := param;
    var result: seq<Token> := [];
    for i := 0 to |arr|
      invariant i <= |param| && params == param[i..]
      invariant |result| == i
      invariant forall k :: 0 <= k < i ==> Tokenized(L, param[k], arr[k]) == Ok(result[k])
    {
      if params == [] {
        StructStopsAt(L, param, arr, i);
        return Err(Abi(InvalidData));
      }
      var p := params[0];
      params := params[1..];
      var token := Tokenized(L, p, arr[i]);
      if token.Err? {
        StructStopsAt(L, param, arr, i);
        return Err(token.error);
      }
      result := result + [token.value];
    }
    StructCompletes(L, param, arr, result);
    return Ok(result);
  }

  /** The ways out of the loop of `tokenize_struct`. */
  lemma StructCompletes(L: Lenient, ps: seq<ParamType>, vs: seq<HostValue>, ts: seq<Token>)
    requires |ts| == |vs| <= |ps|
    requires forall k :: 0 <= k < |vs| ==> Tokenized(L, ps[k], vs[k]) == Ok(ts[k])
    ensures TokenizedStruct(L, ps, JsArray(vs)) == Ok(ts)
  {
    var rs := FieldResults(L, ps, vs);
    assert forall k :: 0 <= k < |vs| ==> rs[k] == Ok(ts[k]);
    CollectAllOk(rs, ts);
  }

  lemma StructStopsAt(L: Lenient, ps: seq<ParamType>, vs: seq<HostValue>, i: nat)
    requires i < |vs| && (i < |ps| ==> Tokenized(L, ps[i], vs[i]).Err?)
    requires i <= |ps| && forall k :: 0 <= k < i ==> Tokenized(L, ps[k], vs[k]).Ok?
    ensures TokenizedStruct(L, ps, JsArray(vs)) ==
            Err(if i < |ps| then Tokenized(L, ps[i], vs[i]).error else Abi(InvalidData))
  {
    var rs := FieldResults(L, ps, vs);
    assert forall k :: 0 <= k < i ==> rs[k] == Tokenized(L, ps[k], vs[k]);
    CollectStopsAt(rs, i);
  }

  /** `parse_tokens`: tokenize each (type, value) pair; the first failure
      aborts the whole argument list. */
  function ParseTokens(L: Lenient, params: seq<(ParamType, HostValue)>): (r: Result<seq<Token>, Failure>)
    ensures r.Ok? ==> |r.value| == |params|
  {
    Collect(ArgumentResults(L, params))
  }

  /** What tokenizing each (type, value) pair gives, in order. */
  function ArgumentResults(L: Lenient, params: seq<(ParamType, HostValue)>): (rs: seq<Result<Token, Failure>>)
    ensures |rs| == |params|
  {
    seq(|params|, k requires 0 <= k < |params| => Tokenized(L, params[k].0, params[k].1))
  }
}
