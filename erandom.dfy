/** The EOSRandom client of the QRandom contract: it reads the contract's tables (validators,
    configuration, per-account key passwords and encrypted random results) and decrypts a
    bought random value with the owner's dynamic key, falling back to the backup key. The
    node is a table view, and the client's fixed contract account is a parameter. */
module ERandom {
  import opened Errors
  import opened Unicode
  import opened PyInt
  import opened Base64
  import opened Cipher
  import opened Tables
  import opened Cleos

  // ----- check_if_validator -----

  predicate OwnedBy(row: Row, account: string) {
    "owner" in row && row["owner"] == account
  }

  /** Some row among `rows` is owned by `account`. */
  predicate Lists(rows: seq<Row>, account: string) {
    exists i :: 0 <= i < |rows| && OwnedBy(rows[i], account)
  }

  /** check_if_validator as written: it reads the validators table with get_table's default
      limit, so it answers for the first ten rows only. */
  method CheckIfValidator(node: Node, contract: string, account: string) returns (ret: bool)
    ensures ret <==> Lists(GetTable(node, contract, contract, "validators", DefaultLimit), account)
    ensures ret ==> Lists(AllRows(node, contract, contract, "validators"), account)
  {
    var rows := GetTable(node, contract, contract, "validators", DefaultLimit);
    for i := 0 to |rows|
      invariant forall j :: 0 <= j < i ==> !OwnedBy(rows[j], account)
    {
      if OwnedBy(rows[i], account) {
        assert rows[i] in AllRows(node, contract, contract, "validators");
        return true;
      }
    }
    return false;
  }

  /** The validators table of a contract with ten validators "v0" listed before "me". */
  function ElevenValidators(): seq<Row> {
    seq(10, i => map["owner" := "v0"]) + [map["owner" := "me"]]
  }

  function ElevenValidatorsNode(): Node {
    map[TableId("qrandom", "qrandom", "validators") := ElevenValidators()]
  }

  /** The eleventh validator is not recognised as one. */
  method EleventhValidatorMissed() returns (ret: bool)
    ensures !ret
    ensures Lists(AllRows(ElevenValidatorsNode(), "qrandom", "qrandom", "validators"), "me")
  {
    var rows := AllRows(ElevenValidatorsNode(), "qrandom", "qrandom", "validators");
    assert rows == ElevenValidators();
    assert OwnedBy(rows[10], "me");
    var first := GetTable(ElevenValidatorsNode(), "qrandom", "qrandom", "validators", DefaultLimit);
    assert first == rows[..10];
    assert forall j :: 0 <= j < |first| ==> first[j]["owner"] == "v0";
    ret := CheckIfValidator(ElevenValidatorsNode(), "qrandom", "me");
  }

  /** check_if_validator over the whole validators table. */
  method CheckIfValidatorAll(node: Node, contract: string, account: string) returns (ret: bool)
    ensures ret <==> Lists(AllRows(node, contract, contract, "validators"), account)
  {
    var rows := AllRows(node, contract, contract, "validators");
    for i := 0 to |rows|
      invariant forall j :: 0 <= j < i ==> !OwnedBy(rows[j], account)
    {
      if OwnedBy(rows[i], account) {
        return true;
      }
    }
    return false;
  }

  /** The whole-table check recognises the eleventh validator. */
  method EleventhValidatorFound() returns (ret: bool)
    ensures ret
  {
    var rows := AllRows(ElevenValidatorsNode(), "qrandom", "qrandom", "validators");
    assert rows == ElevenValidators();
    assert OwnedBy(rows[10], "me");
    ret := CheckIfValidatorAll(ElevenValidatorsNode(), "qrandom", "me");
  }

  // ----- get_config_table_value -----

  /** get_config_table_value(value): the field of the first row of the config table;
      IndexError when the table is empty, KeyError when the row lacks the field. */
  function GetConfigTableValue(node: Node, contract: string, field: string): (r: Result<string>)
    ensures var all := AllRows(node, contract, contract, "config");
            && (all == [] <==> r == Failure(IndexError))
            && (r.Success? <==> all != [] && field in all[0])
            && (r.Success? ==> r.value == all[0][field])
            && (r.Failure? ==> r.error == IndexError || r.error == KeyError)
  {
    var rows := GetTable(node, contract, contract, "config", DefaultLimit);
    if rows == [] then Failure(IndexError)
    else if field !in rows[0] then Failure(KeyError)
    else Success(rows[0][field])
  }

  // ----- _set_dynamic_pubkey / _get_dynamic_pubkey -----

  /** The arguments of setacctpass: the key goes to the field its type names, and the
      other field is sent empty. */
  function AcctPassArgs(account: string, pubkey: string, keyType: string): Json {
    JObject(map["account" := JString(account),
                "encrypt" := JString(if keyType == "encrypt" then pubkey else ""),
                "backup" := JString(if keyType == "backup" then pubkey else "")])
  }

  /** The request _set_dynamic_pubkey pushes: setacctpass of the contract, by account@active. */
  function SetDynamicPubkey(contract: string, account: string, pubkey: string, keyType: string,
                            toBin: JsonToBin): (r: TrxRequest)
    ensures |r.actions| == 1
    ensures r.actions[0].account == contract && r.actions[0].name == "setacctpass"
    ensures r.actions[0].authorization == [PermissionLevel(account, "active")]
    ensures r.actions[0].data == toBin(contract, "setacctpass", AcctPassArgs(account, pubkey, keyType))
  {
    TrxRequest([MakeAction(contract, "setacctpass", account, "active", AcctPassArgs(account, pubkey, keyType), toBin)])
  }

  /** Setting the encrypt key sends the backup field empty, and the other way round; any
      other key type sends both empty. */
  lemma AcctPassFields(account: string, pubkey: string, keyType: string)
    ensures var args := AcctPassArgs(account, pubkey, keyType);
            && Field(args, "account") == Some(JString(account))
            && (keyType == "encrypt" ==>
                  Field(args, "encrypt") == Some(JString(pubkey)) && Field(args, "backup") == Some(JString("")))
            && (keyType == "backup" ==>
                  Field(args, "backup") == Some(JString(pubkey)) && Field(args, "encrypt") == Some(JString("")))
            && (keyType != "encrypt" && keyType != "backup" ==>
                  Field(args, "encrypt") == Some(JString("")) && Field(args, "backup") == Some(JString("")))
  {
  }

  /** _push_action_with_data: the action pushed on its own, signed with the client's key and
      broadcast. `build` makes the transaction of a request from the chain's state. */
  method PushActionWithData<T, D, S>(request: TrxRequest, build: TrxRequest -> T, digestOf: T -> D, sign: D -> S)
    returns (r: Result<Pushed<T, S>>)
    ensures r.Success? && r.value.Posted?
    ensures r.value.envelope.transaction == build(request)
    ensures r.value.envelope.signatures == [sign(digestOf(build(request)))]
  {
    r := PushTransaction(build(request), digestOf, OneKey(Signer(sign)), true, DefaultCompression);
  }

  /** _get_dynamic_pubkey: the key type's field of the first acctpass row of the account, or
      None when there is no row or no such field. */
  function GetDynamicPubkey(node: Node, contract: string, account: string, keyType: string): (k: Option<string>)
    ensures var all := AllRows(node, contract, account, "acctpass");
            && (k.Some? <==> all != [] && keyType in all[0])
            && (k.Some? ==> k.value == all[0][keyType])
  {
    var rows := GetTable(node, contract, account, "acctpass", DefaultLimit);
    if rows != [] && keyType in rows[0] then Some(rows[0][keyType]) else None
  }

  // ----- _try_with_key / get_randresult -----

  /** The body of an attempt: xor_crypt_decode with the key read from the table (a missing
      key is None), then int() of the plaintext. */
  function DecryptValue(enValue: PyStr, key: Option<string>): Result<int> {
    var value :- XorCryptDecode(enValue, if key.Some? then Some(Codes(key.value)) else None);
    ParseInt(value)
  }

  /** _try_with_key: decrypt with the owner's encrypt key ('dynamic') or backup key
      ('backup'); any other key type is a RuntimeError. */
  function TryWithKey(node: Node, contract: string, owner: string, enValue: PyStr, keyType: string): (r: Result<int>)
    ensures keyType == "dynamic" ==> r == DecryptValue(enValue, GetDynamicPubkey(node, contract, owner, "encrypt"))
    ensures keyType == "backup" ==> r == DecryptValue(enValue, GetDynamicPubkey(node, contract, owner, "backup"))
    ensures keyType != "dynamic" && keyType != "backup" ==> r == Failure(RuntimeError)
  {
    if keyType == "dynamic" then DecryptValue(enValue, GetDynamicPubkey(node, contract, owner, "encrypt"))
    else if keyType == "backup" then DecryptValue(enValue, GetDynamicPubkey(node, contract, owner, "backup"))
    else Failure(RuntimeError)
  }

  /** An owner without the key in their acctpass row makes that attempt fail, whatever the
      encrypted value. */
  lemma MissingKeyFails(node: Node, contract: string, owner: string, enValue: PyStr, keyType: string)
    requires keyType == "dynamic" || keyType == "backup"
    requires GetDynamicPubkey(node, contract, owner, if keyType == "dynamic" then "encrypt" else "backup").None?
    ensures TryWithKey(node, contract, owner, enValue, keyType).Failure?
  {
  }

  /** The owner and the stripped encrypted value of the account's first randresult2 row. */
  predicate HasResult(node: Node, contract: string, account: string) {
    var all := AllRows(node, contract, account, "randresult2");
    all != [] && "owner" in all[0] && "value" in all[0]
  }

  function ResultOwner(node: Node, contract: string, account: string): string
    requires HasResult(node, contract, account)
  {
    AllRows(node, contract, account, "randresult2")[0]["owner"]
  }

  function ResultValue(node: Node, contract: string, account: string): PyStr
    requires HasResult(node, contract, account)
  {
    Strip(Codes(AllRows(node, contract, account, "randresult2")[0]["value"]))
  }

  /** The loop of get_randresult over the key types: the first attempt that does not raise
      gives the value, the backup key is tried only after the dynamic key raised. */
  method FirstDecryption(attempt: string -> Result<int>) returns (ret: Option<int>)
    ensures attempt("dynamic").Success? ==> ret == Some(attempt("dynamic").value)
    ensures attempt("dynamic").Failure? ==>
              ret == if attempt("backup").Success? then Some(attempt("backup").value) else None
  {
    var keyTypes := ["dynamic", "backup"];
    ret := None;
    var k := 0;
    while k < |keyTypes| && ret.None?
      invariant 0 <= k <= |keyTypes|
      invariant ret.None? ==> forall j :: 0 <= j < k ==> attempt(keyTypes[j]).Failure?
      invariant ret.Some? ==> 0 < k && attempt(keyTypes[k - 1]) == Success(ret.value)
      invariant ret.Some? ==> forall j :: 0 <= j < k - 1 ==> attempt(keyTypes[j]).Failure?
    {
      var result := attempt(keyTypes[k]);
      if result.Success? {
        ret := Some(result.value);
      }
      k := k + 1;
    }
    assert keyTypes[0] == "dynamic" && keyTypes[1] == "backup";
  }

  /** get_randresult: IndexError without a result row, KeyError without its owner or value;
      otherwise the value decrypted with the dynamic key, or with the backup key when that
      attempt raises. A decryption that fails with both, or gives 0, is a RuntimeError. */
  method GetRandResult(node: Node, contract: string, account: string) returns (r: Result<int>)
    ensures var all := AllRows(node, contract, account, "randresult2");
            && (all == [] ==> r == Failure(IndexError))
            && (all != [] && !HasResult(node, contract, account) ==> r == Failure(KeyError))
    ensures r.Success? ==> HasResult(node, contract, account) && r.value != 0
    ensures HasResult(node, contract, account) ==>
              var owner := ResultOwner(node, contract, account);
              var enValue := ResultValue(node, contract, account);
              var dynamic := TryWithKey(node, contract, owner, enValue, "dynamic");
              var backup := TryWithKey(node, contract, owner, enValue, "backup");
              && (dynamic.Success? ==>
                    r == if dynamic.value != 0 then Success(dynamic.value) else Failure(RuntimeError))
              && (dynamic.Failure? ==>
                    r == if backup.Success? && backup.value != 0 then Success(backup.value) else Failure(RuntimeError))
  {
    var rows := GetTable(node, contract, account, "randresult2", DefaultLimit);
    if rows == [] {
      return Failure(IndexError);
    }
    if "owner" !in rows[0] || "value" !in rows[0] {
      return Failure(KeyError);
    }
    var owner := rows[0]["owner"];
    var enValue := Strip(Codes(rows[0]["value"]));
    var ret := FirstDecryption(keyType => TryWithKey(node, contract, owner, enValue, keyType));
    if ret.None? || ret.value == 0 {
      return Failure(RuntimeError);
    }
    r := Success(ret.value);
  }

  /** Characters of Base64 text are not whitespace. */
  lemma EncodingCharNotSpace(c: byte)
    requires IsEncodingChar(c)
    ensures !IsSpace(c)
  {
  }

  /** Base64 text has no whitespace at its ends, so strip() keeps it whole. */
  lemma StripEncoded(s: PyStr)
    requires forall i :: 0 <= i < |s| ==> s[i] < 0x100 && IsEncodingChar(s[i])
    ensures Strip(s) == s
  {
    if s != [] {
      EncodingCharNotSpace(s[0]);
      EncodingCharNotSpace(s[|s| - 1]);
    }
  }

  /** The encryption of str(n) under a non-empty ASCII key survives strip() and decrypts
      under that key to text int() reads as n. */
  lemma EncryptedDecimalDecrypts(n: int, key: PyStr)
    requires ToDecimal(n).Success? && key != [] && IsAscii(key)
    ensures XorCryptEncode(ToDecimal(n).value, key).Success?
    ensures var out := XorCryptEncode(ToDecimal(n).value, key).value;
            && Strip(out) == out
            && XorCryptDecode(out, Some(key)) == Success(ToDecimal(n).value)
            && ParseInt(ToDecimal(n).value) == Success(n)
  {
    var text := ToDecimal(n).value;
    DecimalAscii(n);
    EncodeAscii(text, key);
    StripEncoded(XorCryptEncode(text, key).value);
    AsciiRoundTrip(text, key);
    DecimalRoundTrip(n);
  }

  /** A random value n, written with str() and encrypted with the owner's non-empty ASCII
      encrypt key, is recovered by the dynamic-key attempt. */
  lemma DynamicKeyRecovers(node: Node, contract: string, account: string, n: int, key: string)
    requires HasResult(node, contract, account)
    requires GetDynamicPubkey(node, contract, ResultOwner(node, contract, account), "encrypt") == Some(key)
    requires Codes(key) != [] && IsAscii(Codes(key))
    requires ToDecimal(n).Success?
    requires XorCryptEncode(ToDecimal(n).value, Codes(key))
             == Success(Codes(AllRows(node, contract, account, "randresult2")[0]["value"]))
    ensures TryWithKey(node, contract, ResultOwner(node, contract, account),
                       ResultValue(node, contract, account), "dynamic") == Success(n)
  {
    EncryptedDecimalDecrypts(n, Codes(key));
  }

  /** str(n) is ASCII. */
  lemma DecimalAscii(n: int)
    requires ToDecimal(n).Success?
    ensures IsAscii(ToDecimal(n).value)
  {
    DecimalTextDigits(if n < 0 then -n else n);
  }
}
