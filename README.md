# magna-eth core, modelled in Dafny

This project models the core logic of `api.magna-eth`, a TypeScript service that
reads Ethereum blocks from public nodes and filters their transactions. The model
covers these parts:

- **Transaction filters** (`TransactionFilterService`). These are stable filters
  over a block's transaction list: by sender or receiver address, and by the
  US-dollar value of the transfer. The value filter uses a fixed table of five
  half-open buckets. Bucket membership is decided exactly on integers: a value of
  `w` wei at a rate of `r` dollars per ether lies in `[min, max)` dollars exactly
  when `min·10^18 ≤ w·r < max·10^18`.
- **Block lookup** (`BlockService`). It covers:
  - `parseToHex`;
  - the choice `getBlock` makes between "latest block first" and "the given number";
  - the JSON-RPC 2.0 request and response handling of `fetchJSONRPC`.

  The node URL and the HTTP round trip are inputs. `drawNode(k)` is the URL
  handed out for the k-th call. `endpoint` maps the call sent to the reply received.
- **Stream payload** (`extractTransactionDetails`). This is a field mapping plus
  two hex decodes.
- **Node pool** (`NodeService`). This is a class whose `nodes` field only grows.
  The scraped page is given as the records its parser selects: one per node div,
  with its `up` flag and its endpoint input values.
- **Authorization header** (`getTokenFromHeader`). This takes the token out of
  `Authorization: <scheme> <token>`, with three ordered rejections.
- **Column transformers** (`URIEncode`, `base6Encode`, `lowercase`). These are
  encoder/decoder pairs, modelled as pure functions.

The JavaScript built-ins these parts depend on are modelled in their own modules:

- `JsNumbers`: `parseInt` (section 18.2.5 of ECMA-262, 6th edition) and
  `Number.prototype.toString(radix)` (section 20.1.3.6).
- `UriCodec`: `encodeURI` and `decodeURI` (section 18.2.6).
- `Utf8`: UTF-8 as in RFC 3629.
- `Base64`: base 64 as in section 4 of RFC 4648.

`Wrappers` holds the `Option` and `Result` types. A `None` or `Failure` is the
source's NaN, null or thrown error. The one exception is
`ValueTransformers.Base64From`, whose `None` is input the strict decoder refuses
(see "Left out").

## Notes on the code

- `fetchJSONRPC` calls `getNode`, which `src/services/nodes.ts` does not define.
  The node URL is therefore an input of the model.
- Each RPC call makes exactly one attempt; nothing is retried.
- A non-numeric block number is sent as `null`; no error is raised before the call.
- The stream route only echoes the messages it receives.

## Model

| member | source | states |
|---|---|---|
| Transactions.Filter | src/services/transactions.ts:40-42 | `Array.prototype.filter`: the result holds exactly the input's elements that satisfy the predicate, and is no longer than the input |
| Transactions.FilterIsStable | src/services/transactions.ts:26-31 | filtering is a stable selection: the kept positions are increasing, they are exactly the positions whose element satisfies the predicate, and the result lists those elements in that order |
| Transactions.FilterKeepsAll | src/services/transactions.ts:28 | a predicate that holds everywhere returns the input unchanged |
| Transactions.FilterTransactions | src/services/transactions.ts:26-31 | with a null or empty address the input comes back unchanged; otherwise a transaction is kept iff its `from` or its `to` equals the address |
| Transactions.FilterBySender | src/services/transactions.ts:40-42 | a transaction is kept iff its `from` equals the address |
| Transactions.FilterByReceiver | src/services/transactions.ts:51-53 | a transaction is kept iff its `to` equals the address; a contract creation (null `to`) never is |
| Transactions.AddressFilterIsUnion | src/services/transactions.ts:26-53 | for a non-empty address, filterTransactions keeps a transaction iff filterBySender or filterByReceiver keeps it |
| Transactions.HexToEth | src/services/transactions.ts:9-11 | the value is NaN exactly when `parseInt(hex, 16)` is, and otherwise holds exactly that many wei |
| Transactions.Ranges | src/services/transactions.ts:67-76 | the table defines a bucket exactly for the five labels |
| Transactions.FilterByValueRange | src/services/transactions.ts:62-84 | an unknown label fails with that label, and does not return an empty or a full list; for a known label a transaction is kept iff its value is a number of wei in `[min, max)` dollars at the given rate |
| Transactions.BucketsDisjoint | src/services/transactions.ts:67-73 | no value lies in two buckets |
| Transactions.BucketsCover | src/services/transactions.ts:67-73 | every non-negative value lies in some bucket; '>5000' has no upper bound |
| Transactions.BucketBoundaries | src/services/transactions.ts:79-83 | at 5000 dollars per ether, 0.02 ETH (exactly 100 dollars) lands in '100-500' and not in '0-100'; 1 ETH lands in '>5000' and not in '2000-5000' |
| JsonRpc.RpcOutcome | src/services/blocks.ts:51-60 | a call fails iff the transport failed or the response has an error member; the error message is "RPC error: " followed by the node's message; otherwise the result member is returned |
| JsonRpc.FetchJsonRpc | src/services/blocks.ts:33-61 | one POST goes to the given node with `{jsonrpc: "2.0", method, params, id: 1}`, well-formed per section 4 of JSON-RPC 2.0 for a non-reserved method name; the outcome is decided by that one reply |
| JsonRpc.ParseToHex | src/services/blocks.ts:69-80 | null exactly when `parseInt(input, 10)` is NaN; otherwise lower-case hex digits with no "0x", and a leading '-' exactly for a negative value |
| JsonRpc.ParseToHexRoundTrip | src/services/blocks.ts:71-79 | decoding parseToHex's output in base 16 gives back the integer parsed in base 10 |
| JsonRpc.ParseToHexOfNumber | src/services/blocks.ts:71-79 | every integral number below 10^21 in magnitude (whose string form is plain decimal) passes through `parseInt` unchanged, so its hex rendering is sent |
| JsonRpc.HexParam | src/services/blocks.ts:109-112 | a null block number is sent as JSON null, any other as a JSON string |
| JsonRpc.GetBlock | src/services/blocks.ts:99-116 | a truthy argument makes one call, `eth_getBlockByNumber` with `[parseToHex(arg), true]`. A falsy one first calls `eth_blockNumber`. If that call fails, the lookup ends with its failure; otherwise a second call sends its result with `true`. Each call draws its own node, and every request is well formed |
| JsonRpc.ZeroIsLatestButStringZeroIsNot | src/services/blocks.ts:101-106 | numeric 0 is falsy and asks for the latest block; the string "0" is truthy and asks for block "0" |
| JsonRpc.NonNumericIsSentAsNull | src/services/blocks.ts:101-112 | a truthy argument with no leading decimal digits is sent as null, with no error before the call |
| JsonRpc.AbcIsSentAsNull | src/services/blocks.ts:101-112 | "abc" is sent as null |
| StreamUtils.ExtractTransactionDetails | src/api/routes/stream/utils.ts:1-11 | the identifying fields are copied unchanged; gas price and value are `parseInt(·, 16)` of the node's strings, NaN exactly when no hex digit follows the white space, sign and "0x" |
| StreamUtils.ExtractEncodedQuantities | src/api/routes/stream/utils.ts:8-9 | "0x" followed by the hex digits of n decodes to n, for gas price and value alike |
| StreamUtils.ExtractIgnoresLeadingZeros | src/api/routes/stream/utils.ts:9 | zero digits after "0x" do not change the decoded value |
| StreamUtils.PaddedAndPlainAgree | src/api/routes/stream/utils.ts:8-9 | "0x00ff" and "0xff" both decode to 255 |
| StreamUtils.ExtractStopsAtNonDigit | src/api/routes/stream/utils.ts:9 | decoding stops at the first non-hex character; with no digit before it the value is NaN |
| StreamUtils.ValueAgreesWithFilter | src/api/routes/stream/utils.ts:9 | the payload's `valueInWei` and the value filter's wei amount agree on every transaction, NaN included |
| Nodes.Collect | src/services/nodes.ts:34-44 | no more URLs are collected than there are endpoint inputs |
| Nodes.CollectAppend | src/services/nodes.ts:34-44 | collecting over two runs of divs is collecting over each in document order |
| Nodes.CollectMembers | src/services/nodes.ts:34-37 | a URL is collected iff some div marked up holds it as an endpoint |
| Nodes.CollectAllDown | src/services/nodes.ts:34 | a page with no up div yields nothing |
| Nodes.NodeService.constructor | src/services/nodes.ts:13 | a fresh service has an empty pool |
| Nodes.NodeService.ScrapeNodes | src/services/nodes.ts:23-49 | the new pool is the old pool followed by the endpoint values of the up divs in document order; an unreachable page leaves the pool unchanged |
| Nodes.NodeService.GetNodes | src/services/nodes.ts:57-59 | returns the current pool |
| Nodes.RescrapeDoubles | src/services/nodes.ts:42 | nothing is deduplicated: scraping the same page twice adds each URL twice |
| IsAuth.Split | src/api/middlewares/isAuth.ts:24 | `split(' ')` gives one more part than there are spaces; no part holds a space; the parts joined with spaces give back the header |
| IsAuth.SplitJoin | src/api/middlewares/isAuth.ts:24 | splitting a join of space-free parts gives back those parts, so the split is the only such decomposition |
| IsAuth.GetTokenFromHeader | src/api/middlewares/isAuth.ts:14-42 | a missing or empty header fails as missing; a header without exactly one space fails as malformed; a success returns a space-free token such that the header is "Token " or "Bearer " followed by it |
| IsAuth.TokenRoundTrip | src/api/middlewares/isAuth.ts:32-41 | "Token t" and "Bearer t" yield t for every space-free t |
| IsAuth.SchemeRejected | src/api/middlewares/isAuth.ts:36-38 | any other space-free scheme fails as not supported |
| IsAuth.DoubleSpaceIsMalformed | src/api/middlewares/isAuth.ts:24-29 | a scheme and a token separated by two spaces are malformed, whatever the scheme: the part count is checked before the scheme |
| IsAuth.NoSpaceIsMalformed | src/api/middlewares/isAuth.ts:27-29 | a non-empty header with no space is malformed |
| IsAuth.LowerCaseSchemeRejected | src/api/middlewares/isAuth.ts:36-38 | schemes are case-sensitive: "bearer tok" is not supported |
| IsAuth.TrailingSpaceGivesEmptyToken | src/api/middlewares/isAuth.ts:24-41 | "Bearer " is accepted and yields the empty token |
| ValueTransformers.UriEncodeTo | src/models/ValueTransformers.ts:12-14 | what `to` stores, `from` reads back as the original |
| ValueTransformers.UriEncodeFrom | src/models/ValueTransformers.ts:20-22 | a stored value without '%' reads back unchanged |
| ValueTransformers.Base64To | src/models/ValueTransformers.ts:34-36 | the output has `4·⌈n/3⌉` characters for n UTF-8 bytes, all from the RFC 4648 alphabet or '='; `from` reads it back as the original (for strings of Unicode scalar values) |
| ValueTransformers.Base64From | src/models/ValueTransformers.ts:42-44 | whatever reads back is the base 64 of the UTF-8 of the result |
| ValueTransformers.Base64Bijection | src/models/ValueTransformers.ts:34-44 | with the strict decoder, `from(stored) == text` iff `to(text) == stored`: the stored values that read back are exactly the canonical base 64 of UTF-8 text |
| ValueTransformers.LowerChar | src/models/ValueTransformers.ts:57 | an ASCII capital moves to its small letter; every other character stays; no ASCII capital results |
| ValueTransformers.LowercaseTo | src/models/ValueTransformers.ts:56-58 | length is kept; each character is lowered independently; no ASCII capital remains |
| ValueTransformers.LowercaseFrom | src/models/ValueTransformers.ts:64-66 | the stored value is returned unchanged |
| ValueTransformers.LowercaseIdempotent | src/models/ValueTransformers.ts:57 | lowering twice is lowering once |
| ValueTransformers.LowercaseKeepsLower | src/models/ValueTransformers.ts:57 | a string without ASCII capitals is stored unchanged (ASCII case mapping only) |
| ValueTransformers.LowercaseCaseInsensitive | src/models/ValueTransformers.ts:56-66 | two values read back equal iff they have the same length and agree character by character once ASCII capitals are lowered |
| JsNumbers.TrimStart | src/api/routes/stream/utils.ts:8 | `parseInt` strips exactly the leading white space |
| JsNumbers.DigitPrefix | src/api/routes/stream/utils.ts:8 | `parseInt` reads the longest prefix of radix digits |
| JsNumbers.ParseInt | src/api/routes/stream/utils.ts:8-9 | NaN iff no radix digit follows the white space, the sign and (in base 16) the "0x"; a negative result needs a leading '-' |
| JsNumbers.NatToDigits | src/services/blocks.ts:79 | lower-case radix digits with no leading zero whose value is n |
| JsNumbers.ToStringRadix | src/services/blocks.ts:79 | an optional '-', present exactly for negatives, followed by lower-case digits |
| JsNumbers.ParseIntToStringRadix | src/services/blocks.ts:71-79 | `parseInt(i.toString(r), r) == i` for every integer i |
| JsNumbers.DigitPrefixAppend | src/api/routes/stream/utils.ts:8-9 | digits followed by anything contribute all of themselves to the digit prefix |
| JsNumbers.LeadingZerosValue | src/api/routes/stream/utils.ts:8-9 | leading zero digits do not change a digit string's value |
| JsNumbers.ParseIntOfDigits | src/api/routes/stream/utils.ts:8-9 | once the digit run is known, `parseInt` is its signed value |
| JsNumbers.HexWithPrefix | src/api/routes/stream/utils.ts:8-9 | "0x" or "0X" followed by the hex digits of n decodes to n |
| JsNumbers.HexLeadingZeros | src/api/routes/stream/utils.ts:8-9 | "0x" + zeros + w decodes like "0x" + w, and is not NaN when w starts with a digit |
| JsNumbers.HexStopsAtNonDigit | src/api/routes/stream/utils.ts:8-9 | decoding stops at the first non-hex character, and is NaN when no digit precedes it |
| Utf8.EncodeChar | src/models/ValueTransformers.ts:35 | one to four bytes; the lead byte announces the length, the rest are continuation bytes; one byte exactly for ASCII |
| Utf8.DecodeScalar | src/models/ValueTransformers.ts:43 | a decoded sequence has the length its lead byte announces and continuation bytes after it |
| Utf8.DecodeEncodeChar | src/models/ValueTransformers.ts:35-43 | each scalar value's encoding decodes back to it |
| Utf8.DecodeEncode | src/models/ValueTransformers.ts:35-43 | decoding undoes encoding on every string |
| Utf8.EncodeDecodeScalar | src/models/ValueTransformers.ts:35-43 | a sequence that decodes is the shortest encoding of its value |
| Utf8.EncodeDecode | src/models/ValueTransformers.ts:35-43 | bytes that decode are exactly the encoding of the decoded text |
| Base64.SextetChar | src/models/ValueTransformers.ts:35 | each 6-bit value has an alphabet character that maps back to it |
| Base64.EncodeTail | src/models/ValueTransformers.ts:35 | one final byte gives two characters and "=="; two give three and "=" |
| Base64.Encode | src/models/ValueTransformers.ts:35 | `4·⌈n/3⌉` characters, each from the alphabet or '=' |
| Base64.DecodeGroup | src/models/ValueTransformers.ts:43 | four alphabet characters give three bytes |
| Base64.DecodeLast | src/models/ValueTransformers.ts:43 | the last quantum gives one to three bytes |
| Base64.DecodeEncode | src/models/ValueTransformers.ts:35-43 | decoding undoes encoding on every byte string |
| Base64.EncodeDecode | src/models/ValueTransformers.ts:35-43 | text that decodes is exactly the encoding of the decoded bytes |
| UriCodec.HexUpper | src/models/ValueTransformers.ts:13 | the escape digit has the given value and is upper case (`0`-`9`, `A`-`F`) |
| UriCodec.PercentEncode | src/models/ValueTransformers.ts:13 | three characters per byte |
| UriCodec.ReadEscapes | src/models/ValueTransformers.ts:21 | a run of escapes gives one byte per three characters |
| UriCodec.ReadEscapesOfEncoded | src/models/ValueTransformers.ts:13-21 | reading the escapes of some bytes gives those bytes back |
| UriCodec.DecodeUriChar | src/models/ValueTransformers.ts:13-21 | decoding one encoded character, followed by anything, gives that character followed by the decoding of the rest |
| UriCodec.DecodeEncodeUri | src/models/ValueTransformers.ts:13-21 | `decodeURI(encodeURI(s)) == s` for every string |
| UriCodec.EncodeUriKeeps | src/models/ValueTransformers.ts:13 | a string made only of unreserved, reserved and '#' characters is its own encoding |
| UriCodec.EncodeUriEscapes | src/models/ValueTransformers.ts:13 | every other character becomes exactly the %XX escapes of its UTF-8 bytes |
| UriCodec.DecodeUriWithoutEscapes | src/models/ValueTransformers.ts:21 | decodeURI leaves a string without '%' unchanged |

## Left out

- Floating point is not modelled, in two places:
  - `hexToEth` divides by 10^18 in doubles and the dollar value is a double product. The model compares exact integers, so values that rounding would push across a bucket edge are not modelled.
  - `parseInt` loses precision above 2^53. The model's numbers are unbounded integers.
- JsonRpc.BlockId: these block-number arguments are left out:
  - numbers that are not integral, NaN and ±Infinity;
  - integers of 10^21 or more in magnitude, which `toString` writes in exponent form.
- JsonRpc.ParseToHexOfNumber: requires a magnitude below 10^21. For 10^21, `String(n)` is "1e+21", so `parseInt` reads 1 and the block sent is "1".
- JsonRpc.FetchJsonRpc: the node URL is an input, because the `getNode` it calls (src/services/blocks.ts:35) is not part of this model; it does not exist in `src/services/nodes.ts`.
- JsonRpc.FetchJsonRpc: these are not modelled:
  - the HTTP request, its headers and `response.json()`, which are the `endpoint` input;
  - the response's `jsonrpc` and `id` members, which the code does not read;
  - JSON numbers that are not integral.
- JsonRpc.RpcOutcome: an error member that is present but falsy is treated as absent. A `message` missing from the error object, which JavaScript would print as "undefined", is not modelled.
- Nodes.NodeService.ScrapeNodes: these are not modelled:
  - the page fetch and cheerio's selector matching, which are given as `Page` records;
  - an endpoint input without a `value` attribute, which pushes `undefined`;
  - nested up divs, which cheerio visits once per enclosing div;
  - the `console.error` logging of a failure.
- Nodes.NodeService.GetNodes: returns the pool as a value. The source returns the array itself, so a caller would see later pushes. That aliasing is not modelled.
- ValueTransformers.LowercaseTo: only ASCII letters are lowered. The Unicode case mappings of `toLowerCase` beyond ASCII are not modelled.
- ValueTransformers.LowerChar: keeps every non-ASCII character. `toLowerCase` would lower a capital such as 'É' to 'é'.
- ValueTransformers.LowercaseKeepsLower: holds for strings without ASCII capitals. Under `toLowerCase` a string also needs no non-ASCII capital, such as 'É', to be stored unchanged.
- ValueTransformers.LowercaseIdempotent: proved for the ASCII mapping only.
- ValueTransformers.LowercaseCaseInsensitive: equality up to ASCII case only. Under `toLowerCase`, values differing in non-ASCII case (such as "É" and "é") are also stored equal.
- ValueTransformers.Base64From: strict. Malformed input gives `None`. `Buffer` instead:
  - skips characters outside the alphabet;
  - accepts missing padding and non-zero unused bits;
  - turns malformed UTF-8 into U+FFFD.
- ValueTransformers.Base64Bijection: holds for the strict decoder only. With `Buffer`, non-canonical text also reads back: `from("YQ")` is "a", while `to("a")` is "YQ==". For strings without lone surrogates, only the direction from `to` to `from` holds for `Buffer`.
- ValueTransformers.Base64To: JavaScript strings that hold a lone surrogate are outside the model, because a Dafny `char` is a Unicode scalar value. `Buffer.from(s, 'utf8')` writes a lone surrogate as the bytes EF BF BD, so `from` would read it back as U+FFFD, not as the original.
- ValueTransformers.UriEncodeFrom: a malformed escape gives `None`, standing for the URIError thrown. `encodeURI`'s URIError on a lone surrogate cannot arise, because a Dafny `char` is a Unicode scalar value.
- Verification of the token by `express-jwt` (src/api/middlewares/isAuth.ts:44-48) is a library call and not modelled.
- The ether-to-dollar rate is a parameter of Transactions.FilterByValueRange. Its configured value, 5000, is used in Transactions.BucketBoundaries.
