# fast-abi native binding: tokenizer and output converter in Dafny

This project models the self-contained core of `native/src/lib.rs`, the
Neon (Node.js) binding of fast-abi over the `ethabi` crate:

- **hex-prefix and selector stripping** (`remove_hex_prefix`,
  `remove_bytes4`), on the UTF-8 bytes of a Rust `&str`, including the
  panics of their unconditional slices;
- **the type-directed tokenizer** (`tokenize` with `tokenize_array`,
  `tokenize_struct`, the leaf `tokenize_*` wrappers and `parse_tokens`),
  which walks an `ethabi::ParamType` and a JavaScript value together and
  builds an `ethabi::Token`;
- **the output converter** `tokenize_out`, which maps a `Token` back to a
  JavaScript value;
- the visible glue of `encode_input`, `decode_output` and `decode_input`:
  the zip of a function's inputs with the arguments, and the hex text
  handling before decoding.

Modules, leaf first:

| file | module | contents |
|---|---|---|
| results.dfy | `Results` | `Result`, `Option`, and `Collect`, the all-or-nothing gathering that both `collect::<Result<Vec<_>,_>>()` and a loop with `?` perform, with its lemmas |
| text.dfy | `Text` | bytes, Rust's character-boundary rule, `RemoveHexPrefix`, `RemoveBytes4`, lowercase `HexEncode` (`hex::encode`) and `HexDecode` (`hex::decode`) |
| abi.dfy | `Abi` | `ParamType`, `Token`, ethabi errors, panic causes, and the shape predicates `SameVariant` and `Conforms` |
| host.dfy | `Host` | JavaScript values as a tagged union |
| tokenizer.dfy | `Tokenizer` | the leaf wrappers, `Tokenized` (pure `tokenize`, with its leaf arms in `TokenizedLeaf`), the specifications `TokenizedArray`/`TokenizedStruct`, the loop methods `TokenizeArray`/`TokenizeStruct`, and `ParseTokens` |
| tokenizer_properties.dfy | `TokenizerProperties` | shape preservation, element order, length rules and error propagation |
| output.dfy | `Output` | `Rendered` (specification of `tokenize_out`), the method `TokenizeOut`, and the hex-format lemmas |
| roundtrip.dfy | `RoundTrip` | when tokenizing the output of `tokenize_out` gives back the same token tree |
| facade.dfy | `Facade` | argument pairing and the hex stripping of `decode_output`/`decode_input` |

Modelling decisions:

- Rust strings are UTF-8 byte sequences, so text is `seq<byte>`. Slicing
  `&s[..2]` panics when `s` is shorter than two bytes or when byte 2 is
  inside a multi-byte character; `CanSliceAt` states exactly that.
- Panics (`downcast().unwrap()` on the wrong JavaScript type, the slice
  above, the explicit `panic!` in `tokenize_struct`, `hex::decode(..).unwrap()`)
  are modelled as the error value `Panic(cause)`. ethabi's own errors are
  `Abi(error)`. A panic aborts the whole call, as a returned error does.
- The six `LenientTokenizer` parsers and `f64::to_string` are not visible.
  They are the function-valued fields of the parameter `Lenient`.
  `U256::to_string` is the parameter `toDecimal`.
- `tokenize`, the leaf wrappers and `parse_tokens` are pure, so they are
  functions. `tokenize_array` and `tokenize_struct` push in a `for` loop.
  They are methods whose postcondition equates their result with the
  specification functions that `tokenize` itself uses. `tokenize_out`
  fills a fresh array slot by slot. It is a method proved equal to the
  function `Rendered`.
- `Into::into` from `[u8; 32]` to `U256` keeps the 32 big-endian bytes.
  The model keeps those bytes (`Word`) as the integer tokens' payload.

Where the code departs from an idealised ABI tokenizer, the model follows
the code:

- a tuple given fewer values than components succeeds with a shorter tuple;
  only more values than components fail, with `InvalidData`;
- a fixed array's declared length is never compared with the number of
  values, and integer widths are ignored;
- an object given for a tuple panics instead of returning an error;
- the empty string as an address or bytes argument panics in
  `remove_hex_prefix`, while "0x" reaches the parser;
- `encode_input` returns the encoded call as hex text without a "0x"
  prefix (native/src/lib.rs:211).

## Model

| member | source | states |
|---|---|---|
| `Text.RemoveHexPrefix` | native/src/lib.rs:30-36 | requires the slice at byte 2 not to panic; returns the text after "0x" exactly when the text starts with "0x", otherwise the text unchanged; the result is always a suffix |
| `Text.RemoveBytes4` | native/src/lib.rs:38-42 | requires both slices not to panic; returns a suffix of the input whose length is that of the prefix-stripped text minus 8; 10 bytes are dropped with "0x", 8 without |
| `Text.HexEncode` | native/src/lib.rs:150-152 | `hex::encode` gives exactly two lowercase hex digits per byte |
| `Text.HexDecode` | native/src/lib.rs:234 | a successful `hex::decode` consumed exactly two digits per byte |
| `Text.HexDecodeEncode` | native/src/lib.rs:150-152 | decoding the lowercase encoding of any bytes gives them back |
| `Text.HexEncodeDecode` | native/src/lib.rs:150-152 | on lowercase hex text, encoding the decoded bytes gives the text back, so the rendering is unique |
| `Text.PrefixedHexSlices` | native/src/lib.rs:32-33 | "0x" followed by hex digits can always be sliced at byte 2 and starts with "0x" |
| `Results.Collect` | native/src/lib.rs:175 | `collect::<Result<_, _>>()`: when it succeeds it holds one value per element, value k taken from element k; its error cases are in the lemmas below |
| `Results.CollectOk` | native/src/lib.rs:172-176 | collecting results gives values `xs` exactly when there is one element per value and element k is `Ok(xs[k])` |
| `Results.CollectFirstError` | native/src/lib.rs:172-176 | collecting reports the error of the first failing element |
| `Results.CollectErrHasFirstError` | native/src/lib.rs:172-176 | every failed collection has a first failing element whose error it reports |
| `Results.CollectErrIfAnyErr` | native/src/lib.rs:172-176 | one failing element makes the whole collection fail: no partial list |
| `TokenizerProperties.StringArgument` | native/src/lib.rs:49-52 | the string downcast of the leaf wrappers (`StringArg`): succeeds exactly on a JavaScript string, with its text, and otherwise panics |
| `TokenizerProperties.HexArgument` | native/src/lib.rs:44-67 | the argument of `tokenize_address`, `tokenize_bytes` and `tokenize_fixed_bytes` (`HexArg`): present exactly for a string that can be sliced at byte 2, and then its text without "0x"; a non-string panics in the downcast, a short string in the slice |
| `TokenizerProperties.NumberArgument` | native/src/lib.rs:69-87 | the text `tokenize_uint` and `tokenize_int` parse (`NumberArg`): `to_string` of a number, the text of a string, and a downcast panic for anything else |
| `Tokenizer.TokenizeBool` | native/src/lib.rs:54-57 | succeeds exactly on a JavaScript boolean, with its value; anything else panics in the downcast |
| `Tokenizer.TokenizeArray` | native/src/lib.rs:89-101 | the push loop returns exactly `TokenizedArray`: a non-array panics, otherwise each element in order, stopping at the first error |
| `Tokenizer.TokenizeStruct` | native/src/lib.rs:103-122 | the loop over values, each taking the iterator's next component, returns exactly `TokenizedStruct`: `InvalidData` once the components run out, the first element error, or the panic for a non-array |
| `Tokenizer.Tokenized` | native/src/lib.rs:124-141 | `tokenize`: a token it returns always has the variant paired with its type; the lemmas of `TokenizerProperties` and `RoundTrip` carry the rest |
| `Tokenizer.TokenizedLeaf` | native/src/lib.rs:130-136 | the leaf arms of `tokenize`: a token returned has the variant of its type |
| `Tokenizer.ParseTokens` | native/src/lib.rs:168-177 | `parse_tokens`: a successful result has one token per argument; `ParseTokensElementwise` and the two lemmas after it give the full characterisation |
| `TokenizerProperties.TokenizedConforms` | native/src/lib.rs:129-140 | every token `tokenize` returns has the variant paired with its type, recursively, with at most as many tuple fields as components |
| `TokenizerProperties.ArrayTokens` | native/src/lib.rs:89-101 | an array type yields `Array(ts)` exactly when there is one token per value and token k is what value k tokenizes to against the element type |
| `TokenizerProperties.ArraySucceeds` | native/src/lib.rs:89-101 | an array tokenizes exactly when each of its elements does |
| `TokenizerProperties.FixedArrayIgnoresLength` | native/src/lib.rs:137-138 | a fixed array tokenizes exactly as a dynamic array, whatever its declared length, only the token variant differing |
| `TokenizerProperties.ArrayFirstError` | native/src/lib.rs:96-98 | the first failing element decides the array's error |
| `TokenizerProperties.ArrayErrorHasCause` | native/src/lib.rs:96-98 | a failing array always has a first failing element whose error it reports |
| `TokenizerProperties.TooManyFieldsFail` | native/src/lib.rs:114 | a value with no component to pair with makes the tuple fail |
| `TokenizerProperties.TupleTokens` | native/src/lib.rs:108-121 | a tuple type yields `Tuple(ts)` exactly when there is one token per value, no more values than components, and token k is value k tokenized against component k |
| `TokenizerProperties.TupleSucceeds` | native/src/lib.rs:108-121 | a tuple tokenizes exactly when it has no more values than components and each value tokenizes against its component |
| `TokenizerProperties.TupleTooManyValues` | native/src/lib.rs:114 | more values than components fail with `InvalidData` when the paired values tokenize |
| `TokenizerProperties.TupleFirstError` | native/src/lib.rs:113-117 | the first failing paired value decides the tuple's error |
| `TokenizerProperties.NonArrayPanics` | native/src/lib.rs:94-119 | arrays and fixed arrays given a non-array panic in the downcast; tuples panic with the unsupported-structure message |
| `TokenizerProperties.DeclaredSizesIgnored` | native/src/lib.rs:135-138 | integer widths and fixed-array lengths do not affect tokenizing; a number is parsed as the text `to_string` gives it |
| `TokenizerProperties.ShortHexTextPanics` | native/src/lib.rs:44-67 | address, bytes and fixed-bytes text that cannot be sliced at byte 2 panics |
| `TokenizerProperties.OptionalHexPrefix` | native/src/lib.rs:44-67 | prefixing "0x" to hex text of at least two bytes that starts on a character and does not already start with "0x" leaves the tokenization unchanged |
| `TokenizerProperties.ParseTokensElementwise` | native/src/lib.rs:168-177 | `parse_tokens` yields `ts` exactly when there is one token per argument and token k is argument k tokenized |
| `TokenizerProperties.ParseTokensSucceeds` | native/src/lib.rs:168-177 | `parse_tokens` succeeds exactly when every argument tokenizes |
| `TokenizerProperties.ParseTokensFirstError` | native/src/lib.rs:172-176 | the first failing argument decides the error of the whole list |
| `Output.Rendered` | native/src/lib.rs:143-166 | the value `tokenize_out` builds: an array exactly for the composite tokens, a boolean exactly for a boolean token, a string otherwise; `RenderedHex`, `RenderedPlain` and `RenderThenTokenize` carry its properties |
| `Output.TokenizeOut` | native/src/lib.rs:143-166 | never fails, and returns exactly `Rendered`; the slot loop puts element k's conversion in slot k |
| `Output.RenderedHex` | native/src/lib.rs:150-153 | address, bytes and fixed bytes become "0x" then lowercase hex of length 2 + 2·(byte count), 42 for an address, decoding back to the bytes |
| `Output.PrefixRoundTrip` | native/src/lib.rs:150-152 | `remove_hex_prefix` of a byte-like token's text does not panic and gives exactly the bare hex encoding of its bytes |
| `Output.RenderedPlain` | native/src/lib.rs:147-164 | the output is built only from booleans, strings and arrays of those, at every depth: never a number, null, undefined or an object |
| `Output.RenderedForgetsVariant` | native/src/lib.rs:154-156 | arrays, fixed arrays and tuples over the same tokens give the same value, and so do Uint and Int over the same word |
| `RoundTrip.RenderThenTokenize` | native/src/lib.rs:124-166 | tokenizing the output of `tokenize_out` against a type gives back the token tree exactly when the tree has that type's shape and each leaf's text re-parses to the leaf |
| `Facade.PairArgs` | native/src/lib.rs:203-208 | pairs input k with argument k and has the length of the shorter list |
| `Facade.TokenizeInputs` | native/src/lib.rs:203-209 | the tokens `encode_input` builds: when tokenizing succeeds there are as many tokens as the shorter of inputs and arguments |
| `Facade.ExtraArgsIgnored` | native/src/lib.rs:203-209 | arguments beyond the function's inputs do not affect the tokens |
| `Facade.MissingArgsDropInputs` | native/src/lib.rs:203-209 | with too few arguments the trailing inputs are dropped |
| `Facade.OutputData` | native/src/lib.rs:234 | text that cannot be sliced at byte 2 panics; a decoded payload used two hex digits per byte, plus the "0x" when there was one; every failure is a panic |
| `Facade.InputData` | native/src/lib.rs:267 | text that cannot be sliced at byte 2 panics; a decoded payload used two hex digits per byte after 8 selector digits, plus the "0x" when there was one; every failure is a panic |
| `Facade.OutputDataRoundTrip` | native/src/lib.rs:234 | hex text of a payload decodes to it with "0x"; without "0x" too, except the empty payload, which panics |
| `Facade.InputDataRoundTrip` | native/src/lib.rs:267 | hex text of a 4-byte selector plus arguments, with or without "0x", strips to exactly the argument bytes |

## Left out

- ethabi's head/tail encoder and decoder (`encode_input`, `decode_output`, `decode_input` of `Function`, native/src/lib.rs:210, 235, 268): they are in the `ethabi` crate, which is not part of this model.
- The `LenientTokenizer` parsers (native/src/lib.rs:46, 51, 61, 66, 76, 86): foreign code. They stay uninterpreted parameters, so the check that fixed bytes have the declared size is not modelled; `Conforms` therefore does not constrain byte counts.
- `f64::to_string` for JavaScript numbers (native/src/lib.rs:70-72, 80-82): floating-point formatting. It is a parameter, and a number is an opaque `real`; NaN and infinities are not represented, and -0.0 and +0.0 are the same `real`, although `to_string` renders them as "-0" and "0" and the integer parsers may treat those differently.
- `U256::to_string` (native/src/lib.rs:154): an external bignum. It is a parameter, so `RenderThenTokenize` states the integer round trip as a per-leaf condition rather than proving it.
- `Contract::load`, the global `OnceCell<Mutex<HashMap>>` registry, `load_abi` and `register_module!` (native/src/lib.rs:12-28, 284-293): process-wide shared state behind a lock, plus foreign JSON parsing.
- Choosing the first overload with `functions_by_name(..).unwrap()[0]` (native/src/lib.rs:199-200): a registry lookup; it is not modelled beyond this note.
- The Neon boundary: `cx.argument`, the `JsArray::new`/`set` calls that build the result arrays of `decode_output`/`decode_input` (native/src/lib.rs:237-244, 270-277), and `hello`. That loop is the same slot-filling loop as `TokenizeOut`'s, over the top-level tokens.
- The `as u32` casts of array lengths and indices (native/src/lib.rs:157, 160): they truncate only for arrays of 2^32 or more elements, which are not modelled.
- Laziness: `parse_tokens`' iterator stops tokenizing at the first error, while `ParseTokens` describes the result of every argument. Tokenizing is pure, so the results are the same.
- UTF-8 validity of text is not enforced. The character-boundary rule is applied to whatever bytes are given.
