/** The ABI parameter types and tokens of the `ethabi` crate, and the error
    outcomes of the binding: ethabi's own errors, and the panics of the
    binding's `unwrap()`s, slices and explicit `panic!`. */
module Abi {

  import opened Text

  /** `ethabi::ParamType`. */
  datatype ParamType =
    | Address
    | Bytes
    | Int(bits: nat)
    | Uint(bits: nat)
    | Bool
    | String
    | Array(elem: ParamType)
    | FixedBytes(size: nat)
    | FixedArray(elem: ParamType, len: nat)
    | Tuple(components: seq<ParamType>)

  /** `[u8; 20]`, the bytes of an `ethabi::Address`. */
  type AddressBytes = a: seq<byte> | |a| == 20 witness seq(20, _ => 0)

  /** `[u8; 32]`, the big-endian bytes of a `U256`, which backs both
      `Token::Uint` and the two's-complement `Token::Int`. */
  type Word = w: seq<byte> | |w| == 32 witness seq(32, _ => 0)

  /** `ethabi::Token`. */
  datatype Token =
    | Address(address: AddressBytes)
    | FixedBytes(bytes: seq<byte>)
    | Bytes(bytes: seq<byte>)
    | Int(word: Word)
    | Uint(word: Word)
    | Bool(flag: bool)
    | String(text: seq<byte>)
    | FixedArray(tokens: seq<Token>)
    | Array(tokens: seq<Token>)
    | Tuple(tokens: seq<Token>)

  /** `ethabi::Error`: `InvalidData`, and every other variant (hex, integer
      and serde failures of the lenient parsers) as one case. */
  datatype AbiError = InvalidData | ParseFailure(reason: string)

  /** Where the binding panics instead of returning an error. */
  datatype PanicCause =
    | NotAString                  // downcast::<JsString>().unwrap()
    | NotABoolean                 // downcast::<JsBoolean>().unwrap()
    | NotAnArray                  // downcast::<JsArray>().unwrap()
    | SliceOutOfBounds            // &data_hex[..2]
    | UnsupportedObjectStructure  // panic! in tokenize_struct
    | InvalidHex                  // hex::decode(...).unwrap()

  datatype Failure = Abi(error: AbiError) | Panic(cause: PanicCause)

  /** The token variant `tokenize` pairs with each parameter type. */
  predicate SameVariant(p: ParamType, t: Token)
  {
    match p
    case Address => t.Address?
    case Bytes => t.Bytes?
    case Int(_) => t.Int?
    case Uint(_) => t.Uint?
    case Bool => t.Bool?
    case String => t.String?
    case FixedBytes(_) => t.FixedBytes?
    case Array(_) => t.Array?
    case FixedArray(_, _) => t.FixedArray?
    case Tuple(_) => t.Tuple?
  }

  /** `t` has the variant paired with `p`, recursively: the elements of an
      array conform to its element type, and a tuple has at most as many
      fields as components, field k conforming to component k. Neither a
      fixed array's length nor a fixed-bytes size nor an integer width is
      part of the shape the binding enforces. */
  ghost predicate Conforms(p: ParamType, t: Token)
    decreases p
  {
    SameVariant(p, t) &&
    match p
    case Array(e) =>
      forall k :: 0 <= k < |t.tokens| ==> Conforms(e, t.tokens[k])
    case FixedArray(e, _) =>
      forall k :: 0 <= k < |t.tokens| ==> Conforms(e, t.tokens[k])
    case Tuple(ps) =>
      |t.tokens| <= |ps| && forall k :: 0 <= k < |t.tokens| ==> Conforms(ps[k], t.tokens[k])
    case _ => true
  }
}
