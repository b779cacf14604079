# Wallet registry and utility helpers — a Dafny model

This project models the core of a small Deno wallet service:

- **the registry** (`deno/utils/ethereum.ts`). It keeps the active network configuration, the admin key and the user accounts in a Deno KV store. It also adds up native and ERC-20 token balances through a JSON-RPC node.
- **the deterministic helpers** (`deno/utils/utils.ts`). These are:
  - the format validators (Ethereum address, private key, transaction hash, Tron address, e-mail);
  - address truncation, string sanitising and snake/camel case conversion;
  - the password rule checker;
  - the extraction of a transfer summary from a receipt;
  - the attempt counting of `retry`.

Layout:

| file | module | what it holds |
|---|---|---|
| `wrappers.dfy` | `Wrappers` | `Option` and `Result` |
| `kv_store.dfy` | `KeyValue` | Deno KV as a class `Store<V>` over `map<seq<string>, V>` with `Get`, `Set` and prefix listing in key order; the key order is proved a strict total order |
| `network.dfy` | `Network` | the stored network configuration record |
| `ethereum.dfy` | `Ethereum` | the registry operations, as methods that modify the store; the balance aggregation, as functions over an RPC oracle |
| `patterns.dfy` | `Patterns` | the fragment of JavaScript regular expressions the validators use (anchored sequences of literals, `[..]{n}` and `[..]+`), and the unanchored one-class test |
| `validators.dfy` | `Validators` | each validator as its regular expression, proved equal to a direct description of the strings it accepts |
| `utils.dfy` | `Utils` | truncation, sanitising, case conversion, `check_password`, `extractTransactionInfo`, `retry` |

Things the model takes as parameters:

- The freshly generated key pair (`Wallet.createRandom`) is a parameter of the operations that create accounts.
- The JSON-RPC node is a parameter `Rpc`, a pair of functions answering each query with a formatted decimal string or a failure.
- The function `retry` calls is a parameter `fn`. `fn(k)` is the outcome of its (k+1)-th call. The sleeps are returned as a list of delays.

## Model

| member | source | states |
|---|---|---|
| KeyValue.Store.Get | deno/utils/ethereum.ts:246 | `kv.get` answers the stored value exactly when the key is present |
| KeyValue.Store.Set | deno/utils/ethereum.ts:186-196 | `kv.set` replaces the value under one key and changes no other entry |
| KeyValue.Store.Matching | deno/utils/ethereum.ts:79 | the keys a prefix listing visits are exactly the stored keys that extend the prefix by at least one part |
| KeyValue.Store.List | deno/utils/ethereum.ts:124 | `kv.list({prefix})` yields each stored entry under the prefix exactly once, with its value, in strictly ascending key order |
| KeyValue.Sorted | deno/utils/ethereum.ts:100 | a finite key set listed in strictly ascending order: same size, same members |
| KeyValue.KeyOrder | deno/utils/ethereum.ts:124 | the key order (part by part, strings by code point) is a strict total order, so the listing order is well defined |
| KeyValue.LexStrictTotalOrder | deno/utils/ethereum.ts:124 | the lexicographic extension of a strict total order is a strict total order |
| KeyValue.LeastExists | deno/utils/ethereum.ts:102 | every non-empty key set has a least key, the first one a listing yields |
| Ethereum.ConfigFor | deno/utils/ethereum.ts:163-196 | "op" and "op_test" resolve to their RPC and faucet URLs; any other name is the RPC URL itself, with no faucet and no USDT address; the token list is empty and the minimum balance is "0.0015" |
| Ethereum.EthSetNetwork | deno/utils/ethereum.ts:160-199 | the network slot is overwritten with the fresh configuration, whatever was stored before, and no other key changes |
| Ethereum.GetNetwork | deno/utils/ethereum.ts:244-248 | the stored configuration, or the op_test/sepolia fallback, which has no token list |
| Ethereum.AddTokenAddress | deno/utils/ethereum.ts:148-158 | exactly one address is appended at the end, with no duplicate check, and every other field is kept; against a configuration without a token list it fails and writes nothing |
| Ethereum.RemoveTokenAddress | deno/utils/ethereum.ts:136-146 | every occurrence of the address is dropped and every other field is kept; against a configuration without a token list it fails and writes nothing |
| Ethereum.RemoveAll | deno/utils/ethereum.ts:140 | the filtered list no longer holds the address and is no longer than the input |
| Ethereum.RemoveAllKeeps | deno/utils/ethereum.ts:140 | every other address survives the filter |
| Ethereum.RemoveAllAppend | deno/utils/ethereum.ts:140 | the filter distributes over concatenation, so the kept addresses stay in order |
| Ethereum.RemoveAllAbsent | deno/utils/ethereum.ts:140 | removing an absent address leaves the list unchanged |
| Ethereum.AddThenRemove | deno/utils/ethereum.ts:136-158 | appending an address not yet listed and then removing it restores the list |
| Ethereum.AddThenRemoveToken | deno/utils/ethereum.ts:136-158 | adding and then removing a new token address leaves the active configuration, and the whole store, as they were |
| Ethereum.EthSetMinBalance | deno/utils/ethereum.ts:223-231 | only the minimum balance of the active configuration changes, and it is stored |
| Ethereum.EthGenAcctWithoutSavePrivKey | deno/utils/ethereum.ts:8-29 | the address is recorded under ["acct","eth","admin"] or as an empty record under ["acct","eth",address]; the private key is never newly stored |
| Ethereum.GetAcctWithPriv | deno/utils/ethereum.ts:116-120 | the value under ["acct", addr], present exactly when that key is |
| Ethereum.EthGenAcct | deno/utils/ethereum.ts:60-75 | the private key is stored under ["acct", address], where getAcctWithPriv finds it |
| Ethereum.EthGenAdmin | deno/utils/ethereum.ts:77-96 | with an admin record present it writes nothing and answers "admin already set"; otherwise the new pair becomes the only admin record |
| Ethereum.GetAdmin | deno/utils/ethereum.ts:98-114 | null exactly when there is no admin record; otherwise the address and value of the least admin key |
| Ethereum.GetAccts | deno/utils/ethereum.ts:122-134 | the second key part of every ["acct", ...] record, in key order, one per record, "eth" included |
| Ethereum.GenAdminTwice | deno/utils/ethereum.ts:77-114 | a second ethGenAdmin never writes: with an admin present the store is unchanged, and on a registry without admin the store gains exactly the first call's record, which is then the only admin record and what getAdmin reads back |
| Ethereum.Erc20Balance | deno/utils/ethereum.ts:351-384 | "0" for an empty contract address or a failed query, the formatted balance otherwise |
| Ethereum.TokenBalances | deno/utils/ethereum.ts:41-44 | one (token, balance) pair per configured token, in list order |
| Ethereum.Collect | deno/utils/ethereum.ts:47-50 | the reduced object holds every pair's key, and the last pair's value wins for its key, as a later assignment overwrites an earlier one |
| Ethereum.CollectSpec | deno/utils/ethereum.ts:47-50 | the reduced object has exactly the tokens as keys, each with that token's balance |
| Ethereum.EthGetBalances | deno/utils/ethereum.ts:31-57 | succeeds exactly when the native query succeeds and a token list exists; the balance keys are exactly the configured tokens and each value is that token's erc20Balance |
| Ethereum.NoTokensNoBalances | deno/utils/ethereum.ts:39-50 | an empty token list gives an empty balance object |
| Ethereum.NativeBalances | deno/utils/ethereum.ts:260-269 | one row per input address, in input order, with that address's native balance; any failed query fails the batch |
| Ethereum.GetBalances | deno/utils/ethereum.ts:256-271 | getBalances queries the active network and returns one row per input address, in input order, with `addr` equal to the input and `balance` that address's native balance |
| Patterns.MatchesOnlyExactly | deno/utils/utils.ts:79 | `^[..]{n}$` accepts exactly the strings of length n drawn from the class |
| Patterns.MatchesOnlyOneOrMore | deno/utils/utils.ts:202 | `^[..]+$` accepts exactly the non-empty strings drawn from the class |
| Patterns.SeparatedMatches | deno/utils/utils.ts:202 | `^c+ a c+ b c+$` accepts exactly the strings that split into three non-empty runs of the class around the two separators |
| Validators.PrefixedHexShape | deno/utils/utils.ts:79 | `^0x[a-fA-F0-9]{n}$` accepts exactly "0x" followed by n hexadecimal digits |
| Validators.IsValidEthereumAddress | deno/utils/utils.ts:78-80 | true exactly for "0x" followed by 40 hexadecimal digits of either case, 42 characters in all |
| Validators.IsValidTxHash | deno/utils/utils.ts:137-139 | true exactly for "0x" followed by 64 hexadecimal digits of either case, 66 characters in all |
| Validators.IsValidPrivateKey | deno/utils/utils.ts:92-96 | true exactly for 64 hexadecimal digits, bare or after one "0x" |
| Validators.TxHashIsPrefixedPrivateKey | deno/utils/utils.ts:137-139 | a valid transaction hash is exactly a 66-character valid private key |
| Validators.AddressIsNotKey | deno/utils/utils.ts:78-96 | no valid Ethereum address is a valid transaction hash or private key |
| Validators.IsValidTronAddress | deno/utils/utils.ts:85-87 | true exactly for 'T' followed by 33 ASCII letters or digits 1-9 |
| Validators.TronAddressHasNoZero | deno/utils/utils.ts:86 | the digit 0 never occurs in a valid Tron address |
| Validators.IsValidEmail | deno/utils/utils.ts:201-204 | true exactly when the string has no `\s` whitespace, one '@' that is not first, and a '.' after it with at least one character on each side |
| Validators.EmailHasOneAt | deno/utils/utils.ts:202 | a valid e-mail address holds exactly one '@' |
| Utils.TruncateAddress | deno/utils/utils.ts:127-132 | input unchanged when not longer than startChars + endChars; otherwise the first startChars characters, "...", and the last endChars characters (startChars + endChars + 3 in all) when endChars > 0, or the whole input when endChars is 0 |
| Utils.TruncateAddressEndZero | deno/utils/utils.ts:131 | with endChars 0 the "truncated" text is longer than the input |
| Utils.TruncateAddressIntended | deno/utils/utils.ts:127-132 | the corrected truncation: first startChars, "...", last endChars characters; never more than 3 characters longer than the input |
| Utils.TruncateAddressAgrees | deno/utils/utils.ts:127-132 | for endChars > 0 the code as written and the corrected truncation agree |
| Utils.TruncatedEthereumAddress | deno/utils/utils.ts:127 | with the default widths 6 and 4 a valid Ethereum address shows as "0x", four digits, "..." and its last four digits, 13 characters |
| Utils.SanitizeString | deno/utils/utils.ts:209-211 | the result holds none of `< > ' " &` and is no longer than the input |
| Utils.SanitizeKeepsSafe | deno/utils/utils.ts:210 | every other character keeps its number of occurrences |
| Utils.SanitizeAppend | deno/utils/utils.ts:210 | sanitising works character by character, so the kept characters stay in order |
| Utils.SanitizeSafe | deno/utils/utils.ts:210 | a string with no unsafe character is left as it is |
| Utils.SanitizeIdempotent | deno/utils/utils.ts:209-211 | sanitising twice is sanitising once |
| Utils.ToSnakeCase | deno/utils/utils.ts:234-236 | the output has no ASCII upper-case letter and is at least as long as the input |
| Utils.SnakeCaseAppend | deno/utils/utils.ts:235 | snake case works character by character: the conversion of a concatenation is the concatenation of the conversions |
| Utils.SnakeCaseChar | deno/utils/utils.ts:235 | one ASCII capital becomes '_' and its lower-case letter; any other character stays |
| Utils.SnakeCaseIdempotent | deno/utils/utils.ts:234-236 | snake case of snake case changes nothing |
| Utils.ToCamelCase | deno/utils/utils.ts:227-229 | the output has no '_' directly before an ASCII lower-case letter and is no longer than the input |
| Utils.CamelCaseFixed | deno/utils/utils.ts:227-229 | a string with no '_' before a lower-case letter is its own camel case |
| Utils.CamelCaseIdempotent | deno/utils/utils.ts:227-229 | camel case of camel case changes nothing |
| Utils.CamelOfSnake | deno/utils/utils.ts:227-236 | camel case undoes snake case on every string with no '_' before a lower-case letter |
| Utils.PasswordErrorsExact | deno/utils/utils.ts:34-57 | a rule's message is reported exactly when the rule fails; nothing is reported exactly when every rule holds |
| Utils.CheckPassword | deno/utils/utils.ts:26-73 | one message per failed rule, in the order length, upper case, lower case, digit, special character; valid exactly when there is none; weak exactly when invalid, strong exactly when valid and at least 12 characters long, medium otherwise |
| Utils.ExtractTransactionInfo | deno/utils/utils.ts:6-20 | hash, status, sender and recipient are copied; the amount is the third argument of the first event, or "0" when the events, the first event, its arguments or the third argument are missing, or that argument is empty; so it is never empty |
| Utils.Retry | deno/utils/utils.ts:241-264 | at most maxAttempts calls; the first success is returned with no further call; after maxAttempts failures the last error is thrown; the k-th sleep lasts baseDelay·2^k (k from 0); with maxAttempts below 1 nothing is called and undefined is thrown |
| Utils.RetryWithDefaults | deno/utils/utils.ts:241-245 | with the defaults 3 and 1000: one to three calls, a value returned exactly when one of the first three calls succeeds, and sleeps of 1000 and then 2000 milliseconds |

## Left out

- Deno KV persistence, atomicity, versionstamps and the asynchronous iteration of `kv.list`: the store is an in-memory map and a listing is a sequence.
- Key parts other than strings: the registry only writes string keys.
- Lengths and order are taken in Unicode code points. JavaScript counts `length` and `slice` positions in UTF-16 code units. They differ only for characters outside the Basic Multilingual Plane.
- `Wallet.createRandom` (randomness and key derivation): the key pair is a parameter.
- ethers.js `JsonRpcProvider` and `Contract` calls: each is an oracle answer.
- `formatEther` and `formatUnits`: folded into the oracle, which answers already formatted strings.
- The `decimals` query of erc20Balance: folded into the same answer, so a failure of either query gives "0".
- `Promise.all` in ethGetBalances and getBalances: modelled as an in-order sequential map. Only the order and key set of the results are stated.
- `erc20Info` and `erc20Transfer` (ethereum.ts:273-349): RPC calls and transaction submission with no state of this model.
- `network_map`, `network_op` and `get_valid_networks` (ethereum.ts:201-221, 252-254): constant configurations with no behaviour.
- The configuration record follows deno/types/network.ts:7-22, with three deviations. `alias` is any string, because eth_set_network stores whatever name it is given. `usdtContractAddress` is carried, because eth_set_network writes it although the type comments it out. `tokensAddresses` and `minBalance` are optional, because the fallback configuration has neither.
- Ethereum.GetNetwork reads any value under the network key other than a configuration as absent. The registry only ever writes configurations there.
- Ethereum.EthSetMinBalance takes the decimal text of the number `eth_set_min_balance` receives, not a JavaScript number.
- Ethereum.ConfigFor ignores the names JavaScript objects inherit from `Object.prototype` (such as "constructor"), which the alias tables would also answer.
- Ethereum.EthGenAdmin and Ethereum.GetAdmin test only whether the listing has a first entry. The source checks `key.length >= 2` inside its loop. Every key listed under the one-part prefix ["admin"] has at least two parts, so that test always passes on the first entry. GetAccts keeps the test.
- Ethereum.EthGetBalances does not model the `__proto__` token address, which the object literal in the reduce would treat specially.
- Floating-point helpers `formatBalance`, `weiToEther` and `etherToWei`: they rely on IEEE doubles, `parseFloat` and `BigInt` conversion.
- `generateRandomHex`, `sleep`, `getCurrentTimestamp`, `formatTimestamp`, `isValidUrl` and `safeJsonParse`: they depend on randomness, timers, `Date`, the `URL` constructor or `JSON.parse`.
- `isEmpty`: it takes untyped values and uses Unicode-wide `trim`.
- deno/balance_syncer.ts: CSV file input and output with console output.
- Utils.Retry takes an integer `maxAttempts` and integer delays. It does not model fractional attempt counts or delays beyond double precision. A thrown value that is not an `Error` is wrapped by the source; here it is carried as its message text.
- Utils.ExtractTransactionInfo takes the hash, sender and recipient as text and `status` as an integer; the source also allows a string status, which is copied the same way. Each event argument is given as its `toString` text.
- Utils.TruncateAddress takes natural-number widths. It does not model a negative `startChars`, for which `slice(0, -k)` counts from the end, nor a negative or fractional width, which JavaScript truncates or counts from the end.
- Console output.

## Findings

| source | as written | input that shows it | evidently intended | confidence | as-written member | corrected member |
|---|---|---|---|---|---|---|
| deno/utils/utils.ts:131 | `address.slice(-endChars)` with `endChars` 0 is `slice(0)`, the whole address, so the result repeats the input after "..." | truncateAddress("0x0123456789", 6, 0) gives "0x0123...0x0123456789", longer than the input | no trailing characters: "0x0123..." | medium, not executed | Utils.TruncateAddressEndZero | Utils.TruncateAddressIntended |
