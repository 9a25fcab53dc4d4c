/** The Cleos client operations of the core: signing and enveloping a transaction, the
    requests that create an account and install an ABI or contract code, and the review of
    a multisig proposal. The node, the serializer and the keys are parameters: a table view,
    abi_json_to_bin as a function from (code, action, arguments) to bytes, and signers as
    functions from a digest to a signature. */
module Cleos {
  import opened Errors
  import opened Unicode
  import opened Tables

  type Bytes = seq<byte>

  /** The JSON values the client puts into action arguments. */
  datatype Json =
    | JString(text: string)
    | JInt(number: int)
    | JBool(flag: bool)
    | JList(items: seq<Json>)
    | JObject(fields: map<string, Json>)

  /** The value of field `name` of a JSON object. */
  function Field(j: Json, name: string): Option<Json> {
    if j.JObject? && name in j.fields then Some(j.fields[name]) else None
  }

  datatype PermissionLevel = PermissionLevel(actor: string, permission: string)

  /** An action of a transaction request; `data` holds its arguments in binary form. */
  datatype Action = Action(account: string, name: string, authorization: seq<PermissionLevel>, data: Bytes)

  /** A transaction request, {"actions": [...]}. */
  datatype TrxRequest = TrxRequest(actions: seq<Action>)

  /** abi_json_to_bin(code, action, args)['binargs'], as the node computes it. */
  type JsonToBin = (string, string, Json) -> Bytes

  /** The system contract that owns account creation and code installation. */
  const System := "eosio"

  /** An action of `code` authorised by actor@permission, carrying the binary form of args. */
  function MakeAction(code: string, name: string, actor: string, permission: string,
                      args: Json, toBin: JsonToBin): Action
  {
    Action(code, name, [PermissionLevel(actor, permission)], toBin(code, name, args))
  }

  // ----- push_transaction -----

  /** A key handed to push_transaction: a Signer, which signs a digest, or any other object. */
  datatype Key<!D, S> = Signer(sign: D -> S) | NotASigner

  /** The keys argument: a single key or a list of keys. */
  datatype Keys<!D, S> = OneKey(key: Key<D, S>) | KeyList(list: seq<Key<D, S>>)

  /** The keys push_transaction signs with, in order. */
  function KeysOf<D, S>(keys: Keys<D, S>): (ks: seq<Key<D, S>>)
    ensures keys.OneKey? ==> ks == [keys.key]
    ensures keys.KeyList? ==> ks == keys.list
  {
    match keys
    case OneKey(k) => [k]
    case KeyList(list) => list
  }

  predicate AllSigners<D, S>(ks: seq<Key<D, S>>) {
    forall i :: 0 <= i < |ks| ==> ks[i].Signer?
  }

  /** The signed transaction: {"compression", "transaction", "signatures"}. */
  datatype Envelope<T, S> = Envelope(compression: string, transaction: T, signatures: seq<S>)

  /** What push_transaction does with the envelope: post it to chain.push_transaction, or
      hand it back serialised. */
  datatype Pushed<T, S> = Posted(envelope: Envelope<T, S>) | Returned(envelope: Envelope<T, S>)

  const DefaultCompression := "none"

  /** push_transaction: `trx` is the transaction built from the request and the chain's head
      and irreversible blocks, `digestOf` is sig_digest(trx.encode(), chain_id). Every key
      must be a Signer, or the push fails with EOSKeyError; each signs the same digest, and
      the signatures keep the order of the keys. An empty list is signed by nobody. */
  method PushTransaction<T, D, S>(trx: T, digestOf: T -> D, keys: Keys<D, S>, broadcast: bool, compression: string)
    returns (r: Result<Pushed<T, S>>)
    ensures r.Success? <==> AllSigners(KeysOf(keys))
    ensures r.Failure? ==> r.error == EOSKeyError
    ensures r.Success? ==> r.value.Posted? == broadcast
    ensures r.Success? ==> r.value.envelope.compression == compression && r.value.envelope.transaction == trx
    ensures r.Success? ==> |r.value.envelope.signatures| == |KeysOf(keys)|
    ensures r.Success? ==> forall i :: 0 <= i < |KeysOf(keys)| ==>
              r.value.envelope.signatures[i] == KeysOf(keys)[i].sign(digestOf(trx))
  {
    var digest := digestOf(trx);
    var ks: seq<Key<D, S>>;
    match keys {
      case OneKey(k) =>
        if !k.Signer? {
          assert KeysOf(keys)[0] == k;
          return Failure(EOSKeyError);
        }
        ks := [k];
      case KeyList(list) =>
        ks := list;
    }
    var signatures: seq<S> := [];
    for i := 0 to |ks|
      invariant |signatures| == i
      invariant forall j :: 0 <= j < i ==> ks[j].Signer? && signatures[j] == ks[j].sign(digest)
    {
      if !ks[i].Signer? {
        return Failure(EOSKeyError);
      }
      signatures := signatures + [ks[i].sign(digest)];
    }
    var envelope := Envelope(compression, trx, signatures);
    r := if broadcast then Success(Posted(envelope)) else Success(Returned(envelope));
  }

  // ----- create_account -----

  const DefaultStake := "1.0000 SPX"
  const DefaultRamKb := 8
  const DefaultPermission := "active"

  /** A single-key authority: threshold 1, the key with weight 1, no accounts, no waits. */
  function Authority(key: string): Json {
    JObject(map["threshold" := JInt(1),
                "keys" := JList([JObject(map["key" := JString(key), "weight" := JInt(1)])]),
                "accounts" := JList([]),
                "waits" := JList([])])
  }

  /** The key of a single-key authority. */
  function AuthorityKey(auth: Json): Option<string> {
    match Field(auth, "keys")
    case Some(JList(items)) =>
      if items != [] && Field(items[0], "key").Some? && Field(items[0], "key").value.JString?
      then Some(Field(items[0], "key").value.text) else None
    case _ => None
  }

  /** The arguments of newaccount; an empty active key stands for the owner key. */
  function NewAccountArgs(creator: string, name: string, ownerKey: string, activeKey: string): Json {
    var active := if activeKey == "" then ownerKey else activeKey;
    JObject(map["creator" := JString(creator), "name" := JString(name),
                "owner" := Authority(ownerKey), "active" := Authority(active)])
  }

  /** The arguments of buyrambytes: ramkb kibibytes, in bytes. */
  function BuyRamArgs(creator: string, name: string, ramkb: int): Json {
    JObject(map["payer" := JString(creator), "receiver" := JString(name), "bytes" := JInt(ramkb * 1024)])
  }

  function DelegateArgs(creator: string, name: string, stakeNet: string, stakeCpu: string, transfer: bool): Json {
    JObject(map["from" := JString(creator), "receiver" := JString(name),
                "stake_net_quantity" := JString(stakeNet), "stake_cpu_quantity" := JString(stakeCpu),
                "transfer" := JBool(transfer)])
  }

  /** The request create_account pushes (signed by the creator's key). `accountExists` is
      what the lookup of the new name found; its outcome is discarded. */
  function CreateAccount(creator: string, name: string, ownerKey: string, activeKey: string,
                         stakeNet: string, stakeCpu: string, ramkb: int, permission: string,
                         transfer: bool, accountExists: bool, toBin: JsonToBin): (r: TrxRequest)
    ensures |r.actions| == 3
    ensures r.actions[0].name == "newaccount" && r.actions[1].name == "buyrambytes" && r.actions[2].name == "delegatebw"
    ensures forall i :: 0 <= i < 3 ==>
              r.actions[i].account == System && r.actions[i].authorization == [PermissionLevel(creator, permission)]
    ensures r.actions[0].data == toBin(System, "newaccount", NewAccountArgs(creator, name, ownerKey, activeKey))
    ensures r.actions[1].data == toBin(System, "buyrambytes", BuyRamArgs(creator, name, ramkb))
    ensures r.actions[2].data == toBin(System, "delegatebw", DelegateArgs(creator, name, stakeNet, stakeCpu, transfer))
  {
    TrxRequest([
      MakeAction(System, "newaccount", creator, permission, NewAccountArgs(creator, name, ownerKey, activeKey), toBin),
      MakeAction(System, "buyrambytes", creator, permission, BuyRamArgs(creator, name, ramkb), toBin),
      MakeAction(System, "delegatebw", creator, permission, DelegateArgs(creator, name, stakeNet, stakeCpu, transfer), toBin)])
  }

  /** An existing account does not stop create_account: the request is the same either way. */
  lemma CreateAccountIgnoresExisting(creator: string, name: string, ownerKey: string, activeKey: string,
                                     stakeNet: string, stakeCpu: string, ramkb: int, permission: string,
                                     transfer: bool, toBin: JsonToBin)
    ensures CreateAccount(creator, name, ownerKey, activeKey, stakeNet, stakeCpu, ramkb, permission, transfer, true, toBin)
         == CreateAccount(creator, name, ownerKey, activeKey, stakeNet, stakeCpu, ramkb, permission, transfer, false, toBin)
  {
  }

  /** Authority reads back through AuthorityKey. */
  lemma AuthorityKeyOf(key: string)
    ensures AuthorityKey(Authority(key)) == Some(key)
  {
    var inner := JObject(map["key" := JString(key), "weight" := JInt(1)]);
    assert Field(Authority(key), "keys") == Some(JList([inner]));
    assert Field(inner, "key") == Some(JString(key));
  }

  /** The new account is owned by the owner key, and its active authority is the active
      key, or the owner key when no active key is given. */
  lemma NewAccountKeys(creator: string, name: string, ownerKey: string, activeKey: string)
    ensures var args := NewAccountArgs(creator, name, ownerKey, activeKey);
            && Field(args, "creator") == Some(JString(creator))
            && Field(args, "name") == Some(JString(name))
            && Field(args, "owner").Some? && AuthorityKey(Field(args, "owner").value) == Some(ownerKey)
            && Field(args, "active").Some?
            && AuthorityKey(Field(args, "active").value) == Some(if activeKey == "" then ownerKey else activeKey)
  {
    AuthorityKeyOf(ownerKey);
    AuthorityKeyOf(if activeKey == "" then ownerKey else activeKey);
  }

  /** buyrambytes asks for 1024 bytes per kibibyte, paid by the creator for the new account. */
  lemma BuyRamBytes(creator: string, name: string, ramkb: int)
    ensures var args := BuyRamArgs(creator, name, ramkb);
            && Field(args, "payer") == Some(JString(creator))
            && Field(args, "receiver") == Some(JString(name))
            && Field(args, "bytes").Some? && Field(args, "bytes").value.JInt?
            && Field(args, "bytes").value.number / 1024 == ramkb
            && Field(args, "bytes").value.number % 1024 == 0
  {
  }

  /** With the defaults, the new account is owned and run by the owner key, gets 8192 bytes
      of RAM and has 1 SPX staked for each of net and cpu, not transferred, all authorised by
      the creator's active permission. */
  lemma CreateAccountDefaults(creator: string, name: string, ownerKey: string, toBin: JsonToBin)
    ensures var r := CreateAccount(creator, name, ownerKey, "", DefaultStake, DefaultStake, DefaultRamKb,
                                   DefaultPermission, false, false, toBin);
            && r.actions[0].data == toBin(System, "newaccount", NewAccountArgs(creator, name, ownerKey, ownerKey))
            && r.actions[1].data == toBin(System, "buyrambytes", BuyRamArgs(creator, name, DefaultRamKb))
            && Field(BuyRamArgs(creator, name, DefaultRamKb), "bytes") == Some(JInt(8192))
            && r.actions[2].data == toBin(System, "delegatebw", DelegateArgs(creator, name, "1.0000 SPX", "1.0000 SPX", false))
            && r.actions[0].authorization == [PermissionLevel(creator, "active")]
  {
  }

  // ----- set_abi / set_code -----

  /** The request set_abi pushes, or EOSSetSameAbi. `current` is the raw form of the ABI the
      account holds, if any; sha is sha256 of a raw ABI's UTF-8 encoding. */
  function SetAbi(account: string, permission: string, current: Option<string>, newAbi: string,
                  sha: string -> string, toBin: JsonToBin): (r: Result<TrxRequest>)
    ensures r.Failure? <==> (if current.Some? then sha(current.value) else "") == sha(newAbi)
    ensures r.Failure? ==> r.error == EOSSetSameAbi
    ensures r.Success? ==> |r.value.actions| == 1 && r.value.actions[0].name == "setabi"
    ensures r.Success? ==> r.value.actions[0].account == System
                           && r.value.actions[0].authorization == [PermissionLevel(account, permission)]
    ensures r.Success? ==>
              r.value.actions[0].data == toBin(System, "setabi", JObject(map["account" := JString(account), "abi" := JString(newAbi)]))
  {
    var currentSha := if current.Some? then sha(current.value) else "";
    if currentSha == sha(newAbi) then Failure(EOSSetSameAbi)
    else
      var args := JObject(map["account" := JString(account), "abi" := JString(newAbi)]);
      Success(TrxRequest([MakeAction(System, "setabi", account, permission, args, toBin)]))
  }

  /** Installing the ABI the account already holds is refused. */
  lemma SetAbiSameRefused(account: string, permission: string, abi: string, sha: string -> string, toBin: JsonToBin)
    ensures SetAbi(account, permission, Some(abi), abi, sha, toBin) == Failure(EOSSetSameAbi)
  {
  }

  /** With a hash that never collides and never returns "", set_abi refuses exactly the ABI
      the account already holds, and an account without an ABI always gets one. */
  lemma SetAbiRefusesOnlySame(account: string, permission: string, current: Option<string>, newAbi: string,
                              sha: string -> string, toBin: JsonToBin)
    requires forall x, y :: sha(x) == sha(y) ==> x == y
    requires forall x :: sha(x) != ""
    ensures SetAbi(account, permission, current, newAbi, sha, toBin).Failure? <==> current == Some(newAbi)
  {
    assert sha(newAbi) != "";
  }

  function HexDigit(v: int): (ch: byte)
    requires 0 <= v < 16
  {
    if v < 10 then 48 + v else 87 + v
  }

  predicate IsHexDigit(ch: int) {
    48 <= ch <= 57 || 97 <= ch <= 102
  }

  /** binascii.hexlify: two lower-case hex digits per byte. */
  function Hexlify(b: Bytes): (h: Bytes)
    ensures |h| == 2 * |b|
    ensures forall i :: 0 <= i < |h| ==> IsHexDigit(h[i])
    decreases |b|
  {
    if b == [] then [] else [HexDigit(b[0] / 16), HexDigit(b[0] % 16)] + Hexlify(b[1..])
  }

  /** The value of a hex digit, or -1. */
  function HexValue(ch: byte): (v: int)
    ensures -1 <= v < 16
  {
    if 48 <= ch <= 57 then ch - 48
    else if 97 <= ch <= 102 then ch - 87
    else if 65 <= ch <= 70 then ch - 55
    else -1
  }

  /** binascii.unhexlify, used here to show that Hexlify loses nothing. */
  function Unhexlify(h: Bytes): (r: Result<Bytes>)
    ensures r.Failure? ==> r.error == ValueError
    decreases |h|
  {
    if h == [] then Success([])
    else if |h| == 1 || HexValue(h[0]) < 0 || HexValue(h[1]) < 0 then Failure(ValueError)
    else
      var rest :- Unhexlify(h[2..]);
      Success([HexValue(h[0]) * 16 + HexValue(h[1])] + rest)
  }

  lemma HexDigitValue(v: int)
    requires 0 <= v < 16
    ensures HexValue(HexDigit(v)) == v
  {
  }

  /** Round trip: unhexlify(hexlify(b)) == b, so no two byte strings share a hex text. */
  lemma {:induction false} HexRoundTrip(b: Bytes)
    ensures Unhexlify(Hexlify(b)) == Success(b)
    decreases |b|
  {
    if b != [] {
      var hi, lo := HexDigit(b[0] / 16), HexDigit(b[0] % 16);
      var h := [hi, lo] + Hexlify(b[1..]);
      assert h == Hexlify(b);
      HexDigitValue(b[0] / 16);
      HexDigitValue(b[0] % 16);
      HexRoundTrip(b[1..]);
      assert h[2..] == Hexlify(b[1..]);
      assert [b[0]] + b[1..] == b;
    }
  }

  /** Hexlify never maps two byte strings to the same text. */
  lemma HexlifyInjective(a: Bytes, b: Bytes)
    requires Hexlify(a) == Hexlify(b)
    ensures a == b
  {
    HexRoundTrip(a);
    HexRoundTrip(b);
  }

  /** bytes.decode() of ASCII bytes, as a Dafny string: the text with the same code points. */
  function AsText(h: Bytes): (s: string)
    requires IsAscii(h)
    ensures Utf8Decode(h) == Success(Codes(s))
  {
    AsciiUtf8(h);
    var s := seq(|h|, i requires 0 <= i < |h| => h[i] as char);
    assert Codes(s) == BytesAsText(h);
    s
  }

  function SetCodeArgs(account: string, wasm: Bytes): Json {
    JObject(map["account" := JString(account), "vmtype" := JInt(0), "vmversion" := JInt(0),
                "code" := JString(AsText(Hexlify(wasm)))])
  }

  /** The request set_code pushes, or EOSSetSameCode, as written: the code_hash the chain
      reports (`codeHash`, if any) is compared with sha256 of the HEX TEXT of the code. */
  function SetCode(account: string, permission: string, codeHash: Option<string>, wasm: Bytes,
                   sha: Bytes -> string, toBin: JsonToBin): (r: Result<TrxRequest>)
    ensures r.Failure? <==> (if codeHash.Some? then codeHash.value else "") == sha(Hexlify(wasm))
    ensures r.Failure? ==> r.error == EOSSetSameCode
    ensures r.Success? ==> |r.value.actions| == 1 && r.value.actions[0].name == "setcode"
    ensures r.Success? ==> r.value.actions[0].account == System
                           && r.value.actions[0].authorization == [PermissionLevel(account, permission)]
    ensures r.Success? ==> r.value.actions[0].data == toBin(System, "setcode", SetCodeArgs(account, wasm))
  {
    var currentSha := if codeHash.Some? then codeHash.value else "";
    if currentSha == sha(Hexlify(wasm)) then Failure(EOSSetSameCode)
    else Success(TrxRequest([MakeAction(System, "setcode", account, permission, SetCodeArgs(account, wasm), toBin)]))
  }

  /** The node reports as code_hash the sha256 of the installed code itself. With a hash that
      does not collide, set_code as written never recognises the code the account already
      runs: any non-empty code is pushed again. */
  lemma SetCodeMissesSameCode(account: string, permission: string, wasm: Bytes,
                              sha: Bytes -> string, toBin: JsonToBin)
    requires wasm != []
    requires forall x, y :: sha(x) == sha(y) ==> x == y
    ensures SetCode(account, permission, Some(sha(wasm)), wasm, sha, toBin).Success?
  {
    assert |Hexlify(wasm)| != |wasm|;
  }

  /** The guard as written would refuse exactly the code the account already runs if the
      node reported the hash of the hex text of that code: hexlify loses nothing. */
  lemma SetCodeRefusesOnlySameHex(account: string, permission: string, installed: Option<Bytes>, wasm: Bytes,
                                  sha: Bytes -> string, toBin: JsonToBin)
    requires forall x, y :: sha(x) == sha(y) ==> x == y
    requires forall x :: sha(x) != ""
    ensures var codeHash := if installed.Some? then Some(sha(Hexlify(installed.value))) else None;
            SetCode(account, permission, codeHash, wasm, sha, toBin).Failure? <==> installed == Some(wasm)
  {
    assert sha(Hexlify(wasm)) != "";
    if installed.Some? && sha(Hexlify(installed.value)) == sha(Hexlify(wasm)) {
      HexlifyInjective(installed.value, wasm);
    }
  }

  /** set_code with the guard compared against the hash of the code itself. */
  function SetCodeChecked(account: string, permission: string, codeHash: Option<string>, wasm: Bytes,
                          sha: Bytes -> string, toBin: JsonToBin): (r: Result<TrxRequest>)
    ensures r.Failure? <==> (if codeHash.Some? then codeHash.value else "") == sha(wasm)
    ensures r.Failure? ==> r.error == EOSSetSameCode
    ensures r.Success? ==> |r.value.actions| == 1 && r.value.actions[0].name == "setcode"
    ensures r.Success? ==> r.value.actions[0].account == System
                           && r.value.actions[0].authorization == [PermissionLevel(account, permission)]
    ensures r.Success? ==> r.value.actions[0].data == toBin(System, "setcode", SetCodeArgs(account, wasm))
  {
    var currentSha := if codeHash.Some? then codeHash.value else "";
    if currentSha == sha(wasm) then Failure(EOSSetSameCode)
    else Success(TrxRequest([MakeAction(System, "setcode", account, permission, SetCodeArgs(account, wasm), toBin)]))
  }

  /** The corrected guard refuses exactly the code the account already runs. */
  lemma SetCodeCheckedRefusesOnlySame(account: string, permission: string, installed: Option<Bytes>, wasm: Bytes,
                                      sha: Bytes -> string, toBin: JsonToBin)
    requires forall x, y :: sha(x) == sha(y) ==> x == y
    requires forall x :: sha(x) != ""
    ensures var codeHash := if installed.Some? then Some(sha(installed.value)) else None;
            SetCodeChecked(account, permission, codeHash, wasm, sha, toBin).Failure? <==> installed == Some(wasm)
  {
    assert sha(wasm) != "";
  }

  // ----- multisig_review -----

  const Msig := "eosio.msig"

  /** A proposal under review: who proposed it, its name, and its transaction. */
  datatype Review<T> = Review(proposer: string, proposalName: string, transactionId: string,
                              packedTransaction: string, transaction: T)

  /** PackedTransaction(packed, cleos): the transaction a packed proposal holds, and its id. */
  datatype Unpacker<T> = Unpacker(transaction: string -> T, id: string -> string)

  /** The proposal rows multisig_review asks for: the first row of the proposer's proposal
      table from the proposal's name on (`keyOf` is a row's primary key, `nameKey` the key a
      name encodes to). */
  function ProposalRows(node: Node, proposer: string, proposal: string,
                        keyOf: Row -> int, nameKey: string -> int): seq<Row>
  {
    GetTableFrom(node, Msig, proposer, "proposal", keyOf, nameKey(proposal), 1)
  }

  function ReviewOf<T>(proposer: string, proposal: string, row: Row, unpack: Unpacker<T>): Review<T>
    requires "packed_transaction" in row
  {
    var packed := row["packed_transaction"];
    Review(proposer, proposal, unpack.id(packed), packed, unpack.transaction(packed))
  }

  predicate HasPacked(rows: seq<Row>) {
    forall i :: 0 <= i < |rows| ==> "packed_transaction" in rows[i]
  }

  /** multisig_review as written: no rows is EOSMsigInvalidProposal, a row without a packed
      transaction is a KeyError, otherwise the review of the last row returned. */
  method MultisigReview<T>(node: Node, proposer: string, proposal: string,
                           keyOf: Row -> int, nameKey: string -> int, unpack: Unpacker<T>)
    returns (r: Result<Review<T>>)
    ensures var rows := ProposalRows(node, proposer, proposal, keyOf, nameKey);
            && (rows == [] ==> r == Failure(EOSMsigInvalidProposal))
            && (r.Success? <==> rows != [] && HasPacked(rows))
            && (rows != [] && r.Failure? ==> r.error == KeyError)
            && (r.Success? ==> r.value == ReviewOf(proposer, proposal, rows[|rows| - 1], unpack))
  {
    var rows := ProposalRows(node, proposer, proposal, keyOf, nameKey);
    if rows == [] {
      return Failure(EOSMsigInvalidProposal);
    }
    var review: Option<Review<T>> := None;
    for i := 0 to |rows|
      invariant HasPacked(rows[..i])
      invariant i > 0 ==> review == Some(ReviewOf(proposer, proposal, rows[i - 1], unpack))
    {
      if "packed_transaction" !in rows[i] {
        return Failure(KeyError);
      }
      review := Some(ReviewOf(proposer, proposal, rows[i], unpack));
    }
    assert rows[..|rows|] == rows;
    r := Success(review.value);
  }

  /** A proposer's table holding proposal "ccc" only, with names keyed by their length. */
  const SampleRow: Row := map["proposal_name" := "ccc", "packed_transaction" := "00ff"]

  function SampleNode(): Node {
    map[TableId(Msig, "alice", "proposal") := [SampleRow]]
  }

  function SampleKey(row: Row): int {
    if "proposal_name" in row then |row["proposal_name"]| else 0
  }

  /** Asking for the review of "bb", which does not exist, reviews proposal "ccc" under the
      name "bb". */
  method ReviewOfMissingProposal() returns (r: Result<Review<string>>)
    ensures r.Success? && r.value.proposalName == "bb" && r.value.packedTransaction == "00ff"
  {
    var nameKey := (s: string) => |s|;
    var rows := ProposalRows(SampleNode(), "alice", "bb", SampleKey, nameKey);
    assert AllRows(SampleNode(), Msig, "alice", "proposal") == [SampleRow];
    assert FromBound([SampleRow], SampleKey, 2) == [SampleRow];
    assert rows == [SampleRow];
    r := MultisigReview(SampleNode(), "alice", "bb", SampleKey, nameKey, Unpacker(s => s, s => s));
  }

  predicate Names(row: Row, proposal: string) {
    "proposal_name" in row && row["proposal_name"] == proposal
  }

  /** Every proposal row carries its name, and its primary key is the key of that name. */
  predicate NamesKeyed(rows: seq<Row>, keyOf: Row -> int, nameKey: string -> int) {
    forall i :: 0 <= i < |rows| ==> "proposal_name" in rows[i] && keyOf(rows[i]) == nameKey(rows[i]["proposal_name"])
  }

  /** In a proposal table the node keeps in key order, keyed by the proposals' names, the row
      that lower_bound=proposal, limit=1 finds is the named proposal exactly when the table
      holds that proposal, and it is then that proposal's row. */
  lemma FoundRowIsNamed(node: Node, proposer: string, proposal: string, keyOf: Row -> int, nameKey: string -> int)
    requires KeyOrdered(AllRows(node, Msig, proposer, "proposal"), keyOf)
    requires NamesKeyed(AllRows(node, Msig, proposer, "proposal"), keyOf, nameKey)
    ensures var all := AllRows(node, Msig, proposer, "proposal");
            var rows := ProposalRows(node, proposer, proposal, keyOf, nameKey);
            && (rows != [] && Names(rows[|rows| - 1], proposal) <==> exists i :: 0 <= i < |all| && Names(all[i], proposal))
            && (forall i :: 0 <= i < |all| && Names(all[i], proposal) ==> rows == [all[i]])
  {
    var all := AllRows(node, Msig, proposer, "proposal");
    var bound := nameKey(proposal);
    var rows := ProposalRows(node, proposer, proposal, keyOf, nameKey);
    GetTableFromOrdered(node, Msig, proposer, "proposal", keyOf, bound, 1);
    var k := |all| - |FromBound(all, keyOf, bound)|;
    forall m | 0 <= m < |all| && Names(all[m], proposal)
      ensures rows == [all[m]]
    {
      assert keyOf(all[m]) == bound;
      assert rows != [];
      assert rows == [all[k]];
      assert all[k] in rows;
    }
    if rows != [] && Names(rows[|rows| - 1], proposal) {
      assert rows[|rows| - 1] in rows;
    }
  }

  /** multisig_review that also checks the row found is the named proposal. In a table kept
      in key order and keyed by name, it reviews exactly the proposals the table holds. */
  method MultisigReviewChecked<T>(node: Node, proposer: string, proposal: string,
                                  keyOf: Row -> int, nameKey: string -> int, unpack: Unpacker<T>)
    returns (r: Result<Review<T>>)
    ensures var rows := ProposalRows(node, proposer, proposal, keyOf, nameKey);
            && (r.Success? <==> rows != [] && HasPacked(rows)
                                && "proposal_name" in rows[|rows| - 1] && rows[|rows| - 1]["proposal_name"] == proposal)
            && (r.Failure? ==> r.error == if rows != [] && !HasPacked(rows) then KeyError else EOSMsigInvalidProposal)
            && (r.Success? ==> r.value == ReviewOf(proposer, proposal, rows[|rows| - 1], unpack))
    ensures var all := AllRows(node, Msig, proposer, "proposal");
            KeyOrdered(all, keyOf) && NamesKeyed(all, keyOf, nameKey) ==>
              (r.Success? <==> exists i :: 0 <= i < |all| && Names(all[i], proposal) && "packed_transaction" in all[i])
  {
    r := MultisigReview(node, proposer, proposal, keyOf, nameKey, unpack);
    var rows := ProposalRows(node, proposer, proposal, keyOf, nameKey);
    var all := AllRows(node, Msig, proposer, "proposal");
    if KeyOrdered(all, keyOf) && NamesKeyed(all, keyOf, nameKey) {
      FoundRowIsNamed(node, proposer, proposal, keyOf, nameKey);
    }
    if r.Success? {
      var last := rows[|rows| - 1];
      if !("proposal_name" in last && last["proposal_name"] == proposal) {
        r := Failure(EOSMsigInvalidProposal);
      }
    }
  }

  /** The checked review refuses the missing proposal. */
  method CheckedReviewOfMissingProposal() returns (r: Result<Review<string>>)
    ensures r == Failure(EOSMsigInvalidProposal)
  {
    var nameKey := (s: string) => |s|;
    var rows := ProposalRows(SampleNode(), "alice", "bb", SampleKey, nameKey);
    assert AllRows(SampleNode(), Msig, "alice", "proposal") == [SampleRow];
    assert FromBound([SampleRow], SampleKey, 2) == [SampleRow];
    assert rows == [SampleRow];
    assert SampleRow["proposal_name"] != "bb";
    r := MultisigReviewChecked(SampleNode(), "alice", "bb", SampleKey, nameKey, Unpacker(s => s, s => s));
  }
}
