/** extractTransactionDetails (src/api/routes/stream/utils.ts): the payload
    the stream sends for one transaction, with its two hex quantities decoded
    by `parseInt(·, 16)`. */
module StreamUtils {
  import opened Wrappers
  import JsNumbers
  import Transactions

  /** The object literal built for a transaction; `None` in a quantity is NaN. */
  datatype TransactionDetails = TransactionDetails(
    senderAddress: string,
    receiverAddress: Option<string>,
    blockNumber: string,
    blockHash: string,
    transactionHash: string,
    gasPriceInWei: Option<int>,
    valueInWei: Option<int>)

  /** The identifying fields are copied unchanged; gas price and value are
      decoded from base 16, NaN exactly when the string has no leading hex
      digit once white space, sign and "0x" are skipped. */
  function ExtractTransactionDetails(tx: Transactions.Transaction): (d: TransactionDetails)
    ensures d.senderAddress == tx.from && d.receiverAddress == tx.to
    ensures d.blockNumber == tx.blockNumber && d.blockHash == tx.blockHash
    ensures d.transactionHash == tx.hash
    ensures d.gasPriceInWei == JsNumbers.ParseInt(tx.gasPrice, 16)
    ensures d.valueInWei == JsNumbers.ParseInt(tx.value, 16)
    ensures d.gasPriceInWei.None? <==>
      var b := JsNumbers.Body(tx.gasPrice, 16); b == [] || !JsNumbers.IsRadixDigit(b[0], 16)
    ensures d.valueInWei.None? <==>
      var b := JsNumbers.Body(tx.value, 16); b == [] || !JsNumbers.IsRadixDigit(b[0], 16)
  {
    TransactionDetails(
      tx.from,
      tx.to,
      tx.blockNumber,
      tx.blockHash,
      tx.hash,
      JsNumbers.ParseInt(tx.gasPrice, 16),
      JsNumbers.ParseInt(tx.value, 16))
  }

  /** A node's quantities, "0x" followed by the lower-case hex digits of a
      number, are decoded to that number. */
  lemma ExtractEncodedQuantities(tx: Transactions.Transaction, gasPrice: nat, value: nat)
    requires tx.gasPrice == "0x" + JsNumbers.NatToDigits(gasPrice, 16)
    requires tx.value == "0x" + JsNumbers.NatToDigits(value, 16)
    ensures ExtractTransactionDetails(tx).gasPriceInWei == Some(gasPrice)
    ensures ExtractTransactionDetails(tx).valueInWei == Some(value)
  {
    JsNumbers.HexWithPrefix(gasPrice, 'x');
    JsNumbers.HexWithPrefix(value, 'x');
  }

  /** Zero digits after "0x" do not change the decoded value. */
  lemma ExtractIgnoresLeadingZeros(tx: Transactions.Transaction, k: nat, w: string)
    requires |w| > 0 && JsNumbers.IsRadixDigit(w[0], 16)
    requires tx.value == "0x" + JsNumbers.Zeros(k) + w
    ensures ExtractTransactionDetails(tx).valueInWei == JsNumbers.ParseInt("0x" + w, 16)
    ensures ExtractTransactionDetails(tx).valueInWei.Some?
  {
    JsNumbers.HexLeadingZeros(k, w);
  }

  /** "0x00ff" and "0xff" both decode to 255. */
  lemma PaddedAndPlainAgree()
    ensures JsNumbers.ParseInt("0x00ff", 16) == JsNumbers.ParseInt("0xff", 16) == Some(255)
  {
    var ff := JsNumbers.NatToDigits(255, 16);
    FfSpelling();
    PaddedSpelling();
    JsNumbers.HexWithPrefix(255, 'x');
    assert ff == "ff" && "0x" + ff == ['0', 'x'] + ff;
    JsNumbers.HexLeadingZeros(2, ff);
  }

  lemma PaddedSpelling()
    ensures "0x" + JsNumbers.Zeros(2) + "ff" == "0x00ff"
  {
    var z := JsNumbers.Zeros(2);
    assert z == "00" by {
      assert |z| == 2 && z[0] == '0' && z[1] == '0';
    }
  }

  lemma FfSpelling()
    ensures JsNumbers.NatToDigits(255, 16) == "ff"
    ensures ['0', 'x'] + JsNumbers.NatToDigits(255, 16) == "0xff"
  {
    assert JsNumbers.NatToDigits(255, 16) == "ff" by {
      assert 255 / 16 == 15 && 255 % 16 == 15;
      assert JsNumbers.DigitChar(15) == 'f';
      assert JsNumbers.NatToDigits(15, 16) == "f";
      assert JsNumbers.NatToDigits(255, 16) == JsNumbers.NatToDigits(15, 16) + [JsNumbers.DigitChar(15)];
    }
  }

  /** Decoding stops at the first non-hex character; with no hex digit before
      it the quantity is NaN. */
  lemma ExtractStopsAtNonDigit(tx: Transactions.Transaction, ds: string, c: char, t: string)
    requires JsNumbers.AllRadixDigits(ds, 16) && !JsNumbers.IsRadixDigit(c, 16)
    requires tx.value == "0x" + ds + [c] + t
    ensures ExtractTransactionDetails(tx).valueInWei == JsNumbers.ParseInt("0x" + ds, 16)
    ensures ds == [] ==> ExtractTransactionDetails(tx).valueInWei.None?
  {
    JsNumbers.HexStopsAtNonDigit(ds, c, t);
  }

  /** The stream payload and the value-range filter read a transaction's
      value alike: the same wei amount, and NaN for the same strings. */
  lemma ValueAgreesWithFilter(tx: Transactions.Transaction)
    ensures ExtractTransactionDetails(tx).valueInWei.None? <==> Transactions.HexToEth(tx.value).None?
    ensures ExtractTransactionDetails(tx).valueInWei.Some? ==>
      ExtractTransactionDetails(tx).valueInWei.value == Transactions.HexToEth(tx.value).value.wei
  {
  }
}
