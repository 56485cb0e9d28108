/** `BlockService` (src/services/blocks.ts): JSON-RPC 2.0 calls to an Ethereum
    node and the choice of which block to ask for. The node URL and the HTTP
    round trip are inputs: `drawNode(k)` is the URL the node service hands out
    for the k-th call, and `endpoint` maps the call that is sent to what comes
    back. */
module JsonRpc {
  import opened Wrappers
  import JsNumbers

  /** JSON values as `JSON.stringify` writes them and `response.json()` reads
      them; numbers are integral here. */
  datatype Json =
    | JNull
    | JBool(b: bool)
    | JNumber(n: int)
    | JString(s: string)
    | JArray(items: seq<Json>)
    | JObject(members: seq<(string, Json)>)

  /** The request object (section 4 of JSON-RPC 2.0). */
  datatype Request = Request(jsonrpc: string, methodName: string, params: seq<Json>, id: int)

  /** The error object (section 5.1 of JSON-RPC 2.0). */
  datatype ErrorObject = ErrorObject(code: int, message: string)

  /** A parsed response object (section 5 of JSON-RPC 2.0): `result` and `error` may each be
      absent (or null), whatever the node sent. */
  datatype Response = Response(result: Option<Json>, error: Option<ErrorObject>)

  /** What one POST produced: a parsed body, or a failure of the network or of
      `response.json()`, which rejects the awaited promise. */
  datatype Reply = Delivered(response: Response) | TransportFailure(reason: string)

  /** One POST: the node it went to and the body it carried. */
  datatype Call = Call(nodeUrl: string, request: Request)

  /** Why a call rejected: the Error thrown for an error member, or the
      transport's own failure passed through. */
  datatype Thrown = RpcError(message: string) | Transport(reason: string)

  /** The prefix of the thrown message. */
  const RpcErrorPrefix: string := "RPC error: "

  /** A request object as section 4 of JSON-RPC 2.0 requires it: version "2.0", a method name
      outside the reserved "rpc." space, and a numeric id. */
  predicate IsWellFormedRequest(r: Request) {
    r.jsonrpc == "2.0" && !IsReservedName(r.methodName)
  }

  /** Method names that begin with "rpc." are reserved for the protocol. */
  predicate IsReservedName(name: string) {
    |name| >= 4 && name[..4] == "rpc."
  }

  /** Neither method getBlock calls is reserved. */
  lemma EthMethodsNotReserved()
    ensures !IsReservedName("eth_blockNumber") && !IsReservedName("eth_getBlockByNumber")
  {
    assert "eth_blockNumber"[..4][0] == 'e';
    assert "eth_getBlockByNumber"[..4][0] == 'e';
  }

  /** How fetchJSONRPC settles once the reply is in: the error member, when
      present, wins over any result. `Success(None)` is `undefined`. */
  function RpcOutcome(reply: Reply): (r: Result<Option<Json>, Thrown>)
    ensures r.Failure? <==> reply.TransportFailure? || reply.response.error.Some?
    ensures reply.TransportFailure? ==> r == Failure(Transport(reply.reason))
    ensures reply.Delivered? && reply.response.error.Some? ==>
      r.error.RpcError? && |r.error.message| >= |RpcErrorPrefix|
      && r.error.message[..|RpcErrorPrefix|] == RpcErrorPrefix
      && r.error.message[|RpcErrorPrefix|..] == reply.response.error.value.message
    ensures r.Success? ==> r.value == reply.response.result
  {
    match reply
    case TransportFailure(reason) => Failure(Transport(reason))
    case Delivered(response) =>
      if response.error.Some? then Failure(RpcError(RpcErrorPrefix + response.error.value.message))
      else Success(response.result)
  }

  /** fetchJSONRPC: one node, one POST, no retry. */
  method FetchJsonRpc(nodeUrl: string, methodName: string, params: seq<Json>, endpoint: Call -> Reply)
    returns (sent: Call, outcome: Result<Option<Json>, Thrown>)
    ensures sent.nodeUrl == nodeUrl
    ensures sent.request == Request("2.0", methodName, params, 1)
    ensures !IsReservedName(methodName) ==> IsWellFormedRequest(sent.request)
    ensures outcome == RpcOutcome(endpoint(sent))
  {
    sent := Call(nodeUrl, Request("2.0", methodName, params, 1));
    outcome := RpcOutcome(endpoint(sent));
  }

  /** The argument of getBlock: `string | number | null`; an omitted argument
      takes the default null. Numbers are integral. */
  datatype BlockId = NullId | NumId(n: int) | StrId(s: string)

  /** `!blockNumber`: null, 0 and "" are falsy. */
  predicate IsFalsy(b: BlockId) {
    b == NullId || b == NumId(0) || b == StrId("")
  }

  /** ToString(input), the first step of parseInt: "null", the decimal digits
      of a number, or the string itself. */
  function ToJsString(b: BlockId): string {
    match b
    case NullId => "null"
    case NumId(n) => JsNumbers.ToStringRadix(n, 10)
    case StrId(s) => s
  }

  /** The integer that `parseInt(input, 10)` reads, or `None` for NaN. */
  function DecimalValue(b: BlockId): Option<int> {
    JsNumbers.ParseInt(ToJsString(b), 10)
  }

  /** parseToHex: the leading decimal integer of the input in lower-case
      base 16, with a '-' for a negative value and no "0x"; `None` is null. */
  function ParseToHex(input: BlockId): (r: Option<string>)
    ensures r.None? <==> DecimalValue(input).None?
    ensures r.Some? ==> JsNumbers.IsRendering(r.value, DecimalValue(input).value < 0, 16)
  {
    match DecimalValue(input)
    case None => None
    case Some(v) => Some(JsNumbers.ToStringRadix(v, 16))
  }

  /** Decoding the output of parseToHex in base 16 gives back the integer
      that parseInt read in base 10. */
  lemma ParseToHexRoundTrip(input: BlockId)
    requires DecimalValue(input).Some?
    ensures JsNumbers.ParseInt(ParseToHex(input).value, 16) == DecimalValue(input)
  {
    JsNumbers.ParseIntToStringRadix(DecimalValue(input).value, 16);
  }

  /** Every integral number below 10^21 in magnitude, whose string form is
      plain decimal, survives parseToHex. */
  lemma ParseToHexOfNumber(n: int)
    requires -1_000_000_000_000_000_000_000 < n < 1_000_000_000_000_000_000_000
    ensures ParseToHex(NumId(n)) == Some(JsNumbers.ToStringRadix(n, 16))
  {
    JsNumbers.ParseIntToStringRadix(n, 10);
  }

  /** How a block number is sent: the string, or null for a null or
      undefined value (JSON.stringify writes undefined array slots as null). */
  function AsParam(v: Option<Json>): (j: Json)
    ensures v.None? ==> j == JNull
  {
    match v
    case None => JNull
    case Some(x) => x
  }

  function HexParam(h: Option<string>): (j: Json)
    ensures h.None? <==> j == JNull
    ensures h.Some? ==> j == JString(h.value)
  {
    match h
    case None => JNull
    case Some(s) => JString(s)
  }

  /** The request for one block with full transaction objects. */
  function BlockRequest(blockParam: Json): Request {
    Request("2.0", "eth_getBlockByNumber", [blockParam, JBool(true)], 1)
  }

  /** getBlock. A falsy argument first asks for the latest block number and
      sends that; any other argument is sent as parseToHex made it, null when
      it is not numeric. Each call draws its own node; a failed first call
      ends the lookup. */
  method GetBlock(blockNumber: BlockId, drawNode: nat -> string, endpoint: Call -> Reply)
    returns (calls: seq<Call>, outcome: Result<Option<Json>, Thrown>)
    ensures 1 <= |calls| <= 2
    ensures forall k :: 0 <= k < |calls| ==>
      calls[k].nodeUrl == drawNode(k) && IsWellFormedRequest(calls[k].request)
    ensures !IsFalsy(blockNumber) ==>
      && calls == [Call(drawNode(0), BlockRequest(HexParam(ParseToHex(blockNumber))))]
      && outcome == RpcOutcome(endpoint(calls[0]))
    ensures IsFalsy(blockNumber) ==>
      var latest := RpcOutcome(endpoint(Call(drawNode(0), Request("2.0", "eth_blockNumber", [], 1))));
      && calls[0].request == Request("2.0", "eth_blockNumber", [], 1)
      && (latest.Failure? ==> |calls| == 1 && outcome == latest)
      && (latest.Success? ==>
            && |calls| == 2
            && calls[1].request == BlockRequest(AsParam(latest.value))
            && outcome == RpcOutcome(endpoint(calls[1])))
  {
    EthMethodsNotReserved();
    // parseToHex has no effect, so its value is only computed where it is
    // not overwritten by the latest block number.
    var blockParam: Json;
    calls := [];
    if IsFalsy(blockNumber) {
      var sent, latest := FetchJsonRpc(drawNode(0), "eth_blockNumber", [], endpoint);
      calls := [sent];
      if latest.Failure? {
        outcome := latest;
        return;
      }
      blockParam := AsParam(latest.value);
    } else {
      blockParam := HexParam(ParseToHex(blockNumber));
    }
    var sent, block := FetchJsonRpc(drawNode(|calls|), "eth_getBlockByNumber", [blockParam, JBool(true)], endpoint);
    calls := calls + [sent];
    outcome := block;
  }

  /** Numeric 0 is falsy and asks for the latest block; the string "0" is not,
      and asks for block "0". */
  lemma ZeroIsLatestButStringZeroIsNot()
    ensures IsFalsy(NumId(0))
    ensures !IsFalsy(StrId("0")) && ParseToHex(StrId("0")) == Some("0")
  {
    var s := "0";
    JsNumbers.TrimStartClean(s);
    assert JsNumbers.Body(s, 10) == s + [];
    JsNumbers.ParseIntOfDigits(s, 10, s, []);
    assert JsNumbers.DigitsValue(s, 10) == 0 by {
      assert s[..0] == [];
    }
  }

  /** A truthy argument with no leading decimal digits is sent as null,
      without any error before the call. */
  lemma NonNumericIsSentAsNull(s: string)
    requires s != [] && JsNumbers.DigitPrefix(JsNumbers.Body(s, 10), 10) == []
    ensures !IsFalsy(StrId(s)) && HexParam(ParseToHex(StrId(s))) == JNull
  {
  }

  /** "abc" is one such argument. */
  lemma AbcIsSentAsNull()
    ensures HexParam(ParseToHex(StrId("abc"))) == JNull
  {
    JsNumbers.TrimStartClean("abc");
    assert JsNumbers.Body("abc", 10) == "abc";
  }
}
