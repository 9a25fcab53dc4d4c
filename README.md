# quantralib core, modelled in Dafny

quantralib is a Python client for an EOSIO-style chain and for the QRandom contract that
sells random values. This project models three parts of it and proves properties of each.

- **The XOR cipher** (`cipher.py`). `xor_crypt_encode` XORs every character of the data
  with the key repeated cyclically. It then encodes the result as UTF-8 and wraps it in
  standard Base64 (section 4 of RFC 4648). `xor_crypt_decode` undoes both steps.
- **The Cleos client operations** (`cleos.py`). `push_transaction` signs a transaction with
  one key or a list of keys and builds the `{compression, transaction, signatures}`
  envelope. `create_account` composes its three actions. `set_abi`/`set_code` refuse to
  install an ABI or code whose hash equals the current one. `multisig_review` picks the
  proposal row to review.
- **Random-result recovery in EOSRandom** (`erandom.py`). It reads the contract's tables:
  validators, configuration, per-account key passwords and the encrypted random results.
  It decrypts a bought value with the owner's dynamic key, falling back to the backup key.

Modules:

- `Errors`: the exception types as one `Error` datatype, plus `Option`/`Result`.
- `Unicode`: Python `str` as a sequence of code points, strict UTF-8 encoding and decoding
  with their round trip, and `str.strip()`.
- `Base64`: `b64encode`, and binascii's non-strict decoder as a state machine.
- `PyInt`: `int(s)` and `str(n)` for base 10, including underscores and the 4300-digit limit.
- `Cipher`: the two cipher functions.
- `Tables`: the node's view of contract tables.
- `Cleos` and `ERandom`: the client operations.

The collaborators whose code is not part of this model are function-typed parameters:

- the node's `abi_json_to_bin`;
- the transaction builder and `sig_digest`;
- `Signer.sign`;
- `sha256`;
- `PackedTransaction`.

The node's tables are a map from (code, scope, table) to rows.

`push_transaction` (`cleos.py:216-225`) accepts an empty key list and returns a transaction
with no signatures; the model does the same.

## Model

| member | source | states |
|---|---|---|
| Cipher.XorFrom | quantralib/cipher.py:12 | the `zip(data, cycle(key))` stage: it stops with the data or at once with an empty key, and fails with ValueError when chr() gets a value beyond U+10FFFF |
| Cipher.XorStreamSpec | quantralib/cipher.py:12 | with a non-empty key: one output character per data character; character i is data[i] XOR key[i mod len(key)]; fails exactly when such a value exceeds U+10FFFF |
| Cipher.XorFromSpec | quantralib/cipher.py:12 | the same, for the stage started at any key position |
| Cipher.XorInvolutive | quantralib/cipher.py:22 | (a XOR b) XOR b == a on naturals |
| Cipher.XorBelow | quantralib/cipher.py:12 | XOR of two values below 2^k is below 2^k, so ASCII XOR ASCII is ASCII |
| Cipher.XorStreamInvolutive | quantralib/cipher.py:22 | the XOR stage applied twice with the same non-empty key returns the text |
| Cipher.XorEmptyKey | quantralib/cipher.py:12 | with an empty key the XOR stage is empty |
| Cipher.XorStreamAscii | quantralib/cipher.py:12 | ASCII data and key XOR to ASCII text of the same length |
| Cipher.XorCryptEncode | quantralib/cipher.py:7-14 | xor_crypt_encode; it fails only with ValueError (chr) or UnicodeEncodeError (a lone surrogate) |
| Cipher.XorCryptDecode | quantralib/cipher.py:16-24 | xor_crypt_decode fails only with a UnicodeEncodeError (a lone surrogate in the input text), a Base64 or UTF-8 decoding error, a TypeError or a ValueError, and a None key never decrypts |
| Cipher.EncodeShape | quantralib/cipher.py:14 | the encoder succeeds whenever the XOR stage and its UTF-8 encoding do; its output is ASCII Base64 text of length 4*ceil(n/3) for n encoded bytes |
| Cipher.EncodeAscii | quantralib/cipher.py:14 | for ASCII data and key, the output is 4*ceil(len(data)/3) characters of the Base64 alphabet and '=' |
| Cipher.CryptRoundTrip | quantralib/cipher.py:7-24 | decode(encode(m, k), k) == m for every non-empty key for which encode succeeds |
| Cipher.AsciiRoundTrip | quantralib/cipher.py:33-37 | ASCII data and a non-empty ASCII key always round-trip |
| Cipher.EmptyKeyLosesData | quantralib/cipher.py:12-14 | with an empty key the encoding is "" and no non-empty message comes back |
| Cipher.DefaultKeyRoundTrip | quantralib/cipher.py:7-24 | with the default key, every ASCII message round-trips |
| Cipher.SelfTest | quantralib/cipher.py:31-37 | the module's self-test message comes back with its key |
| Cipher.DecodeRefusesUnpadded | quantralib/cipher.py:21 | Base64 text without '=' whose characters do not fill groups of four is refused: one left over is an invalid length, two or three are incorrect padding |
| Cipher.AsciiBase64Refused | quantralib/cipher.py:21 | any error b64decode raises on the text's bytes is the decoder's error |
| Cipher.DecodeRefusesShortPadding | quantralib/cipher.py:21 | "QQ=" is refused with incorrect padding |
| Cipher.DecodeWithoutKey | quantralib/cipher.py:22 | decoding valid text with a None key is a TypeError |
| Unicode.Codes | quantralib/erandom.py:62 | the code points of a table string, one per character |
| Unicode.CodesAscii | quantralib/cipher.py:7 | a literal of ASCII characters gives ASCII code points |
| Unicode.Utf8Encode | quantralib/cipher.py:14 | str.encode() succeeds exactly when the text holds no surrogate, with at least one byte per character; otherwise UnicodeEncodeError |
| Unicode.Utf8Decode | quantralib/cipher.py:21 | bytes.decode() fails only with UnicodeDecodeError, and the text it returns re-encodes to exactly the input |
| Unicode.Utf8RoundTrip | quantralib/cipher.py:14-21 | decode(encode(s)) == s whenever encode succeeds |
| Unicode.AsciiUtf8 | quantralib/cipher.py:14 | ASCII bytes decode to the same code points, and back |
| Unicode.AsciiTextUtf8 | quantralib/cipher.py:14 | ASCII text encodes to ASCII bytes holding the same codes |
| Unicode.EncodeScalar | quantralib/cipher.py:14 | a scalar's UTF-8 sequence has 1-4 bytes, and starts with an ASCII byte exactly for an ASCII scalar |
| Unicode.DecodeHead | quantralib/cipher.py:21 | a decoded first character is a scalar, not a surrogate, whose UTF-8 encoding is exactly the bytes consumed |
| Unicode.TrimLeading | quantralib/erandom.py:62 | removing leading whitespace (of a given set) returns a suffix that does not start with whitespace, and leaves text that does not start with it unchanged |
| Unicode.TrimTrailing | quantralib/erandom.py:62 | the same at the end: a prefix that does not end with whitespace |
| Unicode.Trim | quantralib/erandom.py:56-62 | both ends: no whitespace of the set remains at either end, and text without it at its ends is unchanged |
| Unicode.Strip | quantralib/erandom.py:62 | strip() with the str.isspace() set leaves no whitespace at either end, and text without whitespace at its ends is unchanged |
| Unicode.TrimRemovesOnlySpaces | quantralib/erandom.py:56-62 | trimming keeps a contiguous middle and removes only whitespace of the set around it |
| Unicode.TrimPadded | quantralib/erandom.py:56-62 | text wrapped in whitespace of the set, and not itself starting or ending with it, trims back to exactly itself |
| Base64.AlphabetChar | quantralib/cipher.py:14 | the RFC 4648 alphabet character of a 6-bit value; it is ASCII and not '=' |
| Base64.AlphabetBijective | quantralib/cipher.py:21 | the decoder's table inverts the alphabet |
| Base64.B64EncodeShape | quantralib/cipher.py:14 | b64encode output has length 4*ceil(n/3) and holds only alphabet characters and '=' |
| Base64.B64Decode | quantralib/cipher.py:21 | b64decode fails only with an invalid length or incorrect padding |
| Base64.B64RoundTrip | quantralib/cipher.py:14-21 | b64decode(b64encode(b)) == b |
| Base64.UnpaddedDecode | quantralib/cipher.py:21 | without '=' the decoder succeeds exactly when the alphabet characters fill whole groups |
| Base64.DecodeUnpadded | quantralib/cipher.py:21 | the same from the start of the text, with the error it raises otherwise |
| PyInt.ParseInt | quantralib/erandom.py:56 | int(): skips only \t \n \v \f \r, space and non-ASCII isspace() characters around the literal; fails only with ValueError |
| PyInt.ParseIntPadded | quantralib/erandom.py:56 | a literal wrapped in whitespace int() skips reads as the literal alone |
| PyInt.ParseIntKeepsSeparator | quantralib/erandom.py:56-62 | U+001C is whitespace to strip() ("\x1c5".strip() == "5") but not to int(): int("\x1c5") is a ValueError while int("5") == 5 |
| PyInt.ToDecimal | quantralib/erandom.py:100 | str(n): fails only with ValueError, which it raises beyond 4300 digits |
| PyInt.DecimalTextDigits | quantralib/erandom.py:56 | str() writes only decimal digits after the sign |
| PyInt.DecimalTextValue | quantralib/erandom.py:56 | the digits str() writes denote the number, one digit per character |
| PyInt.DecimalRoundTrip | quantralib/erandom.py:56 | int(str(n)) == n |
| PyInt.ParseIntEmptyFails | quantralib/erandom.py:56 | int("") is a ValueError |
| Tables.GetTable | quantralib/cleos.py:114-120 | get_table returns the first `limit` rows of the table (all of them when fewer) |
| Tables.FromBound | quantralib/cleos.py:114-120 | the rows a lower bound selects are exactly the table rows whose key is at least the bound |
| Tables.GetTableFrom | quantralib/cleos.py:114-120 | get_table with a lower bound: the first `limit` of the table's rows whose key is at least the bound (all of them when fewer) |
| Tables.FromBoundOrdered | quantralib/cleos.py:114-120 | in a table kept in key order, the rows a lower bound selects are a suffix of the table, and the rows before it are exactly those with a smaller key |
| Tables.FromBoundEmpty | quantralib/cleos.py:114-120 | a lower bound selects nothing exactly when every key is below it |
| Tables.GetTableFromOrdered | quantralib/cleos.py:114-120 | in a table kept in key order, get_table with a lower bound returns a contiguous run starting at the first row whose key reaches the bound, and (with a positive limit) nothing exactly when no key reaches it |
| Cleos.KeysOf | quantralib/cleos.py:217-220 | a single key becomes a one-element list; a list is kept as given |
| Cleos.PushTransaction | quantralib/cleos.py:210-235 | EOSKeyError exactly when some key is not a Signer. Otherwise one signature per key, in key order, each over the same digest. The envelope carries the compression and the transaction. It is posted exactly when broadcast is set |
| Cleos.CreateAccount | quantralib/cleos.py:295-370 | exactly newaccount, buyrambytes, delegatebw, in that order. Each is an eosio action authorised by creator@permission and carries the binary form of its arguments |
| Cleos.CreateAccountIgnoresExisting | quantralib/cleos.py:301-306 | an existing account does not stop the request: it is the same either way |
| Cleos.AuthorityKeyOf | quantralib/cleos.py:310-318 | the single-key authority built for a key names that key |
| Cleos.NewAccountKeys | quantralib/cleos.py:307-327 | the owner authority holds the owner key; the active authority holds the active key, or the owner key when the active key is empty |
| Cleos.BuyRamBytes | quantralib/cleos.py:341 | buyrambytes asks for ramkb*1024 bytes, a whole number of KiB, paid by the creator for the new account |
| Cleos.CreateAccountDefaults | quantralib/cleos.py:295-297 | with the defaults: the owner key also as active key, 8192 bytes of RAM, "1.0000 SPX" staked for net and for cpu without transfer, authorised by creator@active |
| Cleos.SetAbi | quantralib/cleos.py:133-169 | EOSSetSameAbi exactly when the current hash ('' without an ABI) equals the new ABI's hash; otherwise one eosio setabi action, authorised by account@permission, with the account and the new ABI |
| Cleos.SetAbiSameRefused | quantralib/cleos.py:148-149 | installing the ABI the account holds is refused |
| Cleos.SetAbiRefusesOnlySame | quantralib/cleos.py:138-149 | with a collision-free hash that never returns '', exactly the ABI the account holds is refused |
| Cleos.Hexlify | quantralib/cleos.py:179 | hexlify doubles the length and writes only lower-case hex digits |
| Cleos.HexRoundTrip | quantralib/cleos.py:179 | hexlify loses nothing: a hex decoder recovers every byte string from its hexlify text |
| Cleos.HexlifyInjective | quantralib/cleos.py:179 | two byte strings with the same hexlify text are equal |
| Cleos.AsText | quantralib/cleos.py:188 | .decode('utf-8') of the ASCII hex text succeeds and gives the text with the same code points |
| Cleos.SetCode | quantralib/cleos.py:171-204 | as written: EOSSetSameCode exactly when the chain's code_hash ('' without code) equals sha256 of the HEX TEXT of the code; otherwise one eosio setcode action, authorised by account@permission |
| Cleos.SetCodeMissesSameCode | quantralib/cleos.py:174-182 | with the chain's code_hash being the hash of the code itself, set_code as written never refuses the code already installed |
| Cleos.SetCodeRefusesOnlySameHex | quantralib/cleos.py:174-182 | as written, the guard would refuse exactly the installed code only if code_hash were the hash of the code's hex text |
| Cleos.SetCodeChecked | quantralib/cleos.py:171-204 | corrected: the guard compares code_hash with the hash of the code; otherwise the same eosio setcode action |
| Cleos.SetCodeCheckedRefusesOnlySame | quantralib/cleos.py:174-182 | corrected: exactly the installed code is refused |
| Cleos.MultisigReview | quantralib/cleos.py:267-286 | no rows is EOSMsigInvalidProposal; a row without packed_transaction is a KeyError; otherwise the review of the last row, under the requested proposal name |
| Cleos.ReviewOfMissingProposal | quantralib/cleos.py:270-281 | as written: asking for a proposal that does not exist reviews the next proposal under the requested name |
| Cleos.FoundRowIsNamed | quantralib/cleos.py:270 | in a proposal table kept in key order and keyed by name, the row lower_bound=proposal, limit=1 finds is the named proposal exactly when the table holds it |
| Cleos.MultisigReviewChecked | quantralib/cleos.py:267-286 | corrected: also refuses with EOSMsigInvalidProposal when the row found is not the named proposal; in a table kept in key order and keyed by name, it succeeds exactly when the table holds the proposal with a packed transaction |
| Cleos.CheckedReviewOfMissingProposal | quantralib/cleos.py:270-284 | corrected: the missing proposal is refused |
| ERandom.CheckIfValidator | quantralib/erandom.py:9-21 | as written: true exactly when one of the first 10 validator rows (get_table's default limit) has the account as owner |
| ERandom.EleventhValidatorMissed | quantralib/erandom.py:12-21 | as written: the eleventh validator of a table is answered false |
| ERandom.CheckIfValidatorAll | quantralib/erandom.py:9-21 | corrected: true exactly when some validator row has the account as owner |
| ERandom.EleventhValidatorFound | quantralib/erandom.py:12-21 | corrected: the eleventh validator is found |
| ERandom.GetConfigTableValue | quantralib/erandom.py:33-37 | the field of the first config row; IndexError for an empty table, KeyError for a missing field |
| ERandom.SetDynamicPubkey | quantralib/erandom.py:132-149 | one setacctpass action of the contract, authorised by account@active, carrying the account/encrypt/backup arguments |
| ERandom.AcctPassFields | quantralib/erandom.py:135-139 | the key goes to `encrypt` exactly for key type encrypt and to `backup` exactly for backup; the other field is '' |
| ERandom.PushActionWithData | quantralib/spade_base.py:17-25 | the one-action request is always posted, signed once with the client key over the built transaction's digest |
| ERandom.GetDynamicPubkey | quantralib/erandom.py:157-162 | the key type's field of the first acctpass row, None when the row or the field is missing |
| ERandom.TryWithKey | quantralib/erandom.py:47-56 | 'dynamic' decrypts with the encrypt key and 'backup' with the backup key; any other key type is a RuntimeError |
| ERandom.MissingKeyFails | quantralib/erandom.py:55 | a missing key makes the attempt fail |
| ERandom.FirstDecryption | quantralib/erandom.py:64-70 | the dynamic attempt's value when it succeeds; otherwise the backup attempt's value, or nothing |
| ERandom.GetRandResult | quantralib/erandom.py:58-75 | IndexError without a row, KeyError without owner or value. The owner and the stripped value come from the first row. Dynamic key first; backup only after the dynamic attempt raised. RuntimeError when both fail or the first success is 0. A success is never 0 |
| ERandom.EncodingCharNotSpace | quantralib/erandom.py:62 | Base64 characters are not whitespace |
| ERandom.StripEncoded | quantralib/erandom.py:62 | strip() leaves an encoder output unchanged |
| ERandom.EncryptedDecimalDecrypts | quantralib/erandom.py:55-56 | the encryption of str(n) under a non-empty ASCII key survives strip() and decrypts to text int() reads as n |
| ERandom.DynamicKeyRecovers | quantralib/erandom.py:47-67 | a value stored as the encryption of str(n) under the owner's encrypt key is recovered as n by the dynamic attempt |
| ERandom.DecimalAscii | quantralib/erandom.py:56 | str(n) is ASCII |

## Left out

- Transaction building, `Transaction.encode`, `sig_digest`, `Signer.sign`, `PackedTransaction` and `sha256`: their code (types.py, signer.py, utils.py, keys.py) is not part of this model. They are function parameters.
- HTTP transport: `Cleos.get`/`post` and the `get_*` wrappers. Table reads are a map from (code, scope, table) to rows. Posting is the `Posted` outcome; the node's response is not modelled.
- JSON serialisation of the envelope and reading the ABI and code files. Action arguments are a JSON datatype whose objects are maps, so field order is not modelled.
- Cleos.SetAbi: the raw ABI (`Abi.get_raw()`) is taken as given, and its UTF-8 encoding is folded into the hash parameter.
- Cleos.PushTransaction: the chain-info fetch before the key checks, and the `timeout` argument, are network detail.
- Cleos.PushTransaction: WIF strings in the key list are refused like any other non-Signer, as the code does. The docstring's "filename to key file" is not handled by the code either.
- Cleos.CreateAccount: the lookup of the new name is a discarded boolean. The push of the request is PushTransaction with one Signer and is not repeated here.
- Cleos.MultisigReview: primary keys are an abstract function of a row and of a name. The EOSIO name-to-uint64 encoding is not modelled.
- Tables.GetTable: the node's `more` flag, paging, and upper bounds.
- Tables.GetTableFrom: a `Node` may hold rows in any order. That the node keeps a table in primary-key order with unique keys is the `KeyOrdered` hypothesis of the lemmas that need it.
- Table values are Dafny strings, so a field can hold neither a non-string JSON value nor a lone surrogate.
- PyInt.ParseInt: only ASCII digits are modelled. Python's int() also accepts other Unicode decimal digits.
- ERandom.GetRandResult: exception messages are not modelled.
- `generate_dynamic_key`, the CLI, the thin payload builders of spade_base.py/spade_nft.py/twofa.py and the other EOSRandom actions (register_as_validator, setrandom, setuserkey, buy_random_value): these are key generation, console I/O, or one dict literal pushed over the network.
- Concurrency and timeouts: the core has none of its own.

## Findings

| source | as written | input that shows it | evidently intended | confidence | as-written member | corrected member |
|---|---|---|---|---|---|---|
| quantralib/erandom.py:12 | the validators table is read with get_table's default limit of 10 rows | a table whose eleventh validator is the account: the answer is false | search every validator row | medium, not executed | ERandom.EleventhValidatorMissed | ERandom.CheckIfValidatorAll |
| quantralib/cleos.py:180 | the chain's code_hash is compared with sha256 of hexlify(wasm) | any non-empty code already installed (code_hash = sha256 of the code): the guard does not fire | compare code_hash with sha256 of the code itself | medium, not executed | Cleos.SetCodeMissesSameCode | Cleos.SetCodeChecked |
| quantralib/cleos.py:270 | lower_bound=proposal with limit=1 returns the first proposal at or after the name, and the row's name is never checked | proposer with only proposal "ccc", review of "bb": the review holds ccc's transaction under the name "bb" | raise EOSMsigInvalidProposal when the row found is not the named proposal | high, not executed | Cleos.ReviewOfMissingProposal | Cleos.MultisigReviewChecked |
