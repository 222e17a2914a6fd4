/** The visible logic of the three exported operations, leaving out the
    registry and ethabi's encoder and decoder: how arguments are paired with
    a function's inputs, and how hex text is stripped before decoding. */
module Facade {

  import opened Results
  import opened Text
  import opened Abi
  import opened Host
  import opened Tokenizer

  /** `inputs.iter().map(..).zip(args_vec.iter()..).collect()`: pairs
      position by position and stops at the shorter list. */
  function PairArgs(inputs: seq<ParamType>, args: seq<HostValue>): (r: seq<(ParamType, HostValue)>)
    ensures |r| == if |inputs| <= |args| then |inputs| else |args|
    ensures forall k :: 0 <= k < |r| ==> r[k] == (inputs[k], args[k])
  {
    if inputs == [] || args == [] then []
    else [(inputs[0], args[0])] + PairArgs(inputs[1..], args[1..])
  }

  /** The tokens `encode_input` hands to ethabi's encoder. */
  function TokenizeInputs(L: Lenient, inputs: seq<ParamType>, args: seq<HostValue>): (r: Result<seq<Token>, Failure>)
    ensures r.Ok? ==> |r.value| == if |inputs| <= |args| then |inputs| else |args|
  {
    ParseTokens(L, PairArgs(inputs, args))
  }

  /** Arguments beyond the function's inputs are silently dropped. */
  lemma ExtraArgsIgnored(L: Lenient, inputs: seq<ParamType>, args: seq<HostValue>, extra: seq<HostValue>)
    requires |inputs| <= |args|
    ensures TokenizeInputs(L, inputs, args + extra) == TokenizeInputs(L, inputs, args)
  {
    assert PairArgs(inputs, args + extra) == PairArgs(inputs, args);
  }

  /** With too few arguments the trailing inputs are dropped too, so
      tokenizing yields fewer tokens than the function has inputs. */
  lemma MissingArgsDropInputs(L: Lenient, inputs: seq<ParamType>, args: seq<HostValue>)
    requires |args| < |inputs|
    ensures TokenizeInputs(L, inputs, args) == TokenizeInputs(L, inputs[..|args|], args)
  {
    assert PairArgs(inputs, args) == PairArgs(inputs[..|args|], args);
  }

  /** `hex::decode(remove_hex_prefix(&data_hex)).unwrap()` in `decode_output`. */
  function OutputData(dataHex: seq<byte>): (r: Result<seq<byte>, Failure>)
    ensures !CanSliceAt(dataHex, 2) ==> r == Err(Panic(SliceOutOfBounds))
    ensures r.Ok? ==> |dataHex| == 2 * |r.value| + (if dataHex[..2] == HexPrefix then 2 else 0)
    ensures r.Err? ==> r.error.Panic?
  {
    if !CanSliceAt(dataHex, 2) then Err(Panic(SliceOutOfBounds))
    else match HexDecode(RemoveHexPrefix(dataHex))
      case None => Err(Panic(InvalidHex))
      case Some(data) => Ok(data)
  }

  /** `hex::decode(&remove_bytes4(&data_hex)).unwrap()` in `decode_input`. */
  function InputData(dataHex: seq<byte>): (r: Result<seq<byte>, Failure>)
    ensures !CanSliceAt(dataHex, 2) ==> r == Err(Panic(SliceOutOfBounds))
    ensures r.Ok? ==> |dataHex| == 2 * |r.value| + (if dataHex[..2] == HexPrefix then 10 else 8)
    ensures r.Err? ==> r.error.Panic?
  {
    if !CanSliceAt(dataHex, 2) || !CanSliceAt(RemoveHexPrefix(dataHex), 8) then Err(Panic(SliceOutOfBounds))
    else match HexDecode(RemoveBytes4(dataHex))
      case None => Err(Panic(InvalidHex))
      case Some(data) => Ok(data)
  }

  lemma {:induction false} HexEncodeConcat(a: seq<byte>, b: seq<byte>)
    ensures HexEncode(a + b) == HexEncode(a) + HexEncode(b)
  {
    if a == [] {
      assert a + b == b;
    } else {
      var pair := [HexDigit(a[0] as nat / 16), HexDigit(a[0] as nat % 16)];
      assert (a + b)[0] == a[0] && (a + b)[1..] == a[1..] + b;
      HexEncodeConcat(a[1..], b);
      assert HexEncode(a + b) == pair + HexEncode(a[1..] + b);
      assert HexEncode(a) == pair + HexEncode(a[1..]);
      assert pair + (HexEncode(a[1..]) + HexEncode(b)) == (pair + HexEncode(a[1..])) + HexEncode(b);
    }
  }

  /** Bare lowercase hex never starts with "0x" ('x' is not a hex digit),
      so `remove_hex_prefix` leaves it alone when it can slice it. */
  lemma BareHexKept(h: seq<byte>)
    requires forall k :: 0 <= k < |h| ==> IsLowerHexDigit(h[k])
    requires |h| >= 2
    ensures CanSliceAt(h, 2) && RemoveHexPrefix(h) == h
  {
    assert IsLowerHexDigit(h[1]);
    if |h| > 2 { assert IsLowerHexDigit(h[2]); }
  }

  /** The payload's hex text, with or without "0x", decodes to the same
      bytes; only the empty payload without "0x" panics, because
      `remove_hex_prefix` slices two bytes unconditionally. */
  lemma {:induction false} OutputDataRoundTrip(data: seq<byte>)
    ensures OutputData(HexPrefix + HexEncode(data)) == Ok(data)
    ensures OutputData(HexEncode(data)) == if data == [] then Err(Panic(SliceOutOfBounds)) else Ok(data)
  {
    PrefixedHexSlices(data);
    assert (HexPrefix + HexEncode(data))[2..] == HexEncode(data);
    HexDecodeEncode(data);
    if data != [] {
      BareHexKept(HexEncode(data));
    }
  }

  /** The hex text of a call (4-byte selector, then arguments), with or
      without "0x", is stripped to exactly the argument bytes. */
  lemma {:induction false} InputDataRoundTrip(selector: seq<byte>, data: seq<byte>)
    requires |selector| == 4
    ensures InputData(HexEncode(selector + data)) == Ok(data)
    ensures InputData(HexPrefix + HexEncode(selector + data)) == Ok(data)
  {
    var h := HexEncode(selector + data);
    HexEncodeConcat(selector, data);
    assert h[8..] == HexEncode(data);
    HexDecodeEncode(data);
    BareHexKept(h);
    assert CanSliceAt(h, 8) by {
      if |h| > 8 { assert IsLowerHexDigit(h[8]); }
    }
    assert RemoveBytes4(h) == HexEncode(data);
    var s := HexPrefix + h;
    PrefixedHexSlices(selector + data);
    assert s[2..] == h;
    assert RemoveHexPrefix(s) == h;
    assert RemoveBytes4(s) == HexEncode(data);
  }
}
