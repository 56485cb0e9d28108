/** The transaction filters of `TransactionFilterService`
    (src/services/transactions.ts): stable filters over the transaction list
    of one block, by address and by the US-dollar value of the transfer. */
module Transactions {
  import opened Wrappers
  import JsNumbers

  /** A transaction object as a node returns it inside a block fetched with
      full transaction bodies. `to` is `None` for a contract creation, whose
      `to` field is null. Hex-encoded quantities stay strings, as on the wire. */
  datatype Transaction = Transaction(
    from: string,
    to: Option<string>,
    value: string,
    gasPrice: string,
    hash: string,
    blockNumber: string,
    blockHash: string)

  /** `transactions.filter(keep)`: the elements that satisfy `keep`, in order. */
  function Filter<T(!new)>(s: seq<T>, keep: T -> bool): (r: seq<T>)
    ensures |r| <= |s|
    ensures forall x :: x in r <==> x in s && keep(x)
  {
    if s == [] then [] else (if keep(s[0]) then [s[0]] else []) + Filter(s[1..], keep)
  }

  /** `idx` lists, in increasing order, exactly the positions of `s` whose
      elements satisfy `keep`, and `r` holds those elements in that order. */
  ghost predicate IsStableSelection<T>(s: seq<T>, keep: T -> bool, r: seq<T>, idx: seq<int>) {
    && |idx| == |r|
    && (forall k :: 0 <= k < |idx| ==> 0 <= idx[k] < |s| && r[k] == s[idx[k]])
    && (forall k, l :: 0 <= k < l < |idx| ==> idx[k] < idx[l])
    && (forall i :: 0 <= i < |s| ==> (keep(s[i]) <==> i in idx))
  }

  /** The positions at or after `from` whose elements satisfy `keep`. */
  function KeptPositions<T>(s: seq<T>, keep: T -> bool, from: nat): (idx: seq<int>)
    requires from <= |s|
    ensures forall k :: 0 <= k < |idx| ==> from <= idx[k] < |s|
    decreases |s| - from
  {
    if from == |s| then []
    else (if keep(s[from]) then [from] else []) + KeptPositions(s, keep, from + 1)
  }

  /** Filtering is a stable selection: the result is the subsequence of the
      satisfying elements, in their original order, and nothing else. */
  lemma FilterIsStable<T(!new)>(s: seq<T>, keep: T -> bool)
    ensures IsStableSelection(s, keep, Filter(s, keep), KeptPositions(s, keep, 0))
  {
    FilterIsStableFrom(s, keep, 0);
    assert s[0..] == s;
  }

  lemma {:induction false} FilterIsStableFrom<T(!new)>(s: seq<T>, keep: T -> bool, from: nat)
    requires from <= |s|
    ensures var r, idx := Filter(s[from..], keep), KeptPositions(s, keep, from);
      && |idx| == |r|
      && (forall k :: 0 <= k < |idx| ==> r[k] == s[idx[k]])
      && (forall k, l :: 0 <= k < l < |idx| ==> idx[k] < idx[l])
      && (forall i :: from <= i < |s| ==> (keep(s[i]) <==> i in idx))
    decreases |s| - from
  {
    if from < |s| {
      FilterIsStableFrom(s, keep, from + 1);
      assert s[from..][1..] == s[from + 1..];
      assert s[from..][0] == s[from];
    }
  }

  /** A filter whose predicate holds everywhere returns its input. */
  lemma {:induction false} FilterKeepsAll<T(!new)>(s: seq<T>, keep: T -> bool)
    requires forall x :: x in s ==> keep(x)
    ensures Filter(s, keep) == s
  {
    if s != [] {
      assert s[0] in s;
      assert forall x :: x in s[1..] ==> x in s;
      FilterKeepsAll(s[1..], keep);
      assert [s[0]] + s[1..] == s;
    }
  }

  /** JavaScript's `!address` for `string | null`: null, undefined and "". */
  predicate IsFalsyAddress(address: Option<string>) {
    address.None? || address.value == ""
  }

  predicate InvolvesAddress(tx: Transaction, address: string) {
    tx.from == address || tx.to == Some(address)
  }

  /** filterTransactions: every transaction when no address is given,
      otherwise those sent from or to the address (exact, case-sensitive). */
  function FilterTransactions(txs: seq<Transaction>, address: Option<string>): (r: seq<Transaction>)
    ensures IsFalsyAddress(address) ==> r == txs
    ensures !IsFalsyAddress(address) ==>
      forall tx :: tx in r <==> tx in txs && InvolvesAddress(tx, address.value)
  {
    var keep := (tx: Transaction) => IsFalsyAddress(address) || InvolvesAddress(tx, address.value);
    if IsFalsyAddress(address) then FilterKeepsAll(txs, keep); Filter(txs, keep)
    else Filter(txs, keep)
  }

  /** filterBySender: the transactions sent from `address`. */
  function FilterBySender(txs: seq<Transaction>, address: string): (r: seq<Transaction>)
    ensures forall tx :: tx in r <==> tx in txs && tx.from == address
  {
    Filter(txs, (tx: Transaction) => tx.from == address)
  }

  /** filterByReceiver: the transactions sent to `address`; never a contract
      creation, whose `to` is null. */
  function FilterByReceiver(txs: seq<Transaction>, address: string): (r: seq<Transaction>)
    ensures forall tx :: tx in r <==> tx in txs && tx.to == Some(address)
  {
    Filter(txs, (tx: Transaction) => tx.to == Some(address))
  }

  /** With an address, filterTransactions keeps exactly what filterBySender or
      filterByReceiver keeps. (With "" it keeps everything instead.) */
  lemma AddressFilterIsUnion(txs: seq<Transaction>, address: string)
    requires address != ""
    ensures forall tx :: tx in FilterTransactions(txs, Some(address)) <==>
      tx in FilterBySender(txs, address) || tx in FilterByReceiver(txs, address)
  {
  }

  /** An amount of ether held exactly as a count of wei: `wei / 10^18` ether. */
  datatype Ether = Ether(wei: int)

  const WeiPerEther: nat := 1_000_000_000_000_000_000

  /** The configured ETH/USD rate (src/config/index.ts). */
  const EthToUsd: nat := 5000

  /** hexToEth: the hex string read as wei by parseInt(·, 16), kept as an
      exact ratio rather than divided in floating point; `None` is NaN. */
  function HexToEth(hex: string): (e: Option<Ether>)
    ensures e.None? <==> JsNumbers.ParseInt(hex, 16).None?
    ensures e.Some? ==> e.value.wei == JsNumbers.ParseInt(hex, 16).value
  {
    match JsNumbers.ParseInt(hex, 16)
    case None => None
    case Some(w) => Some(Ether(w))
  }

  /** A dollar interval [min, max); `max == None` is Infinity. */
  datatype Bucket = Bucket(min: nat, max: Option<nat>)

  const RangeLabels: seq<string> := ["0-100", "100-500", "500-2000", "2000-5000", ">5000"]

  /** The `ranges` table; `None` where `ranges[range]` is undefined (or an
      inherited, non-iterable property), which makes the destructuring throw. */
  function Ranges(rangeLabel: string): (b: Option<Bucket>)
    ensures b.Some? <==> rangeLabel in RangeLabels
  {
    if rangeLabel == "0-100" then Some(Bucket(0, Some(100)))
    else if rangeLabel == "100-500" then Some(Bucket(100, Some(500)))
    else if rangeLabel == "500-2000" then Some(Bucket(500, Some(2000)))
    else if rangeLabel == "2000-5000" then Some(Bucket(2000, Some(5000)))
    else if rangeLabel == ">5000" then Some(Bucket(5000, None))
    else None
  }

  /** `valueInUsd >= min && valueInUsd < max` with valueInUsd = wei / 10^18 * rate,
      decided exactly by multiplying both sides by 10^18. */
  predicate UsdInBucket(e: Ether, rate: nat, b: Bucket) {
    && e.wei * rate >= b.min * WeiPerEther
    && (b.max.None? || e.wei * rate < b.max.value * WeiPerEther)
  }

  /** The keep-test of filterByValueRange: a value that parses to NaN fails
      both comparisons. */
  predicate ValueInBucket(tx: Transaction, rate: nat, b: Bucket) {
    match HexToEth(tx.value)
    case None => false
    case Some(e) => UsdInBucket(e, rate, b)
  }

  /** The TypeError thrown by `const [min, max] = ranges[range]`. */
  datatype RangeError = UnknownRange(rangeLabel: string)

  /** filterByValueRange with the rate passed in. */
  function FilterByValueRange(txs: seq<Transaction>, range: string, rate: nat): (r: Result<seq<Transaction>, RangeError>)
    ensures r.Failure? <==> range !in RangeLabels
    ensures r.Failure? ==> r.error == UnknownRange(range)
    ensures r.Success? ==>
      forall tx :: tx in r.value <==> tx in txs && ValueInBucket(tx, rate, Ranges(range).value)
  {
    match Ranges(range)
    case None => Failure(UnknownRange(range))
    case Some(b) => Success(Filter(txs, (tx: Transaction) => ValueInBucket(tx, rate, b)))
  }

  /** The buckets are pairwise disjoint. */
  lemma BucketsDisjoint(e: Ether, rate: nat, i: nat, j: nat)
    requires i < j < |RangeLabels|
    ensures !(UsdInBucket(e, rate, Ranges(RangeLabels[i]).value) && UsdInBucket(e, rate, Ranges(RangeLabels[j]).value))
  {
  }

  /** Every non-negative value lands in some bucket; the top one has no upper bound. */
  lemma BucketsCover(e: Ether, rate: nat)
    requires e.wei >= 0
    ensures exists i :: 0 <= i < |RangeLabels| && UsdInBucket(e, rate, Ranges(RangeLabels[i]).value)
  {
    var v := e.wei * rate;
    var i := if v < 100 * WeiPerEther then 0
      else if v < 500 * WeiPerEther then 1
      else if v < 2000 * WeiPerEther then 2
      else if v < 5000 * WeiPerEther then 3
      else 4;
    assert UsdInBucket(e, rate, Ranges(RangeLabels[i]).value);
  }

  /** At the configured rate, 0.02 ETH is exactly 100 USD: it lands in
      '100-500', not in '0-100'. Likewise 1 ETH (5000 USD) lands in '>5000'. */
  lemma BucketBoundaries()
    ensures var hundred := Ether(20_000_000_000_000_000);
      && UsdInBucket(hundred, EthToUsd, Ranges("100-500").value)
      && !UsdInBucket(hundred, EthToUsd, Ranges("0-100").value)
    ensures var fiveThousand := Ether(WeiPerEther);
      && UsdInBucket(fiveThousand, EthToUsd, Ranges(">5000").value)
      && !UsdInBucket(fiveThousand, EthToUsd, Ranges("2000-5000").value)
  {
  }
}
