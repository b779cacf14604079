/** The wallet and network registry kept in the key-value store, and the
    aggregation of native and token balances over a JSON-RPC node.

    Key generation is not modelled: the freshly generated key pair is a
    parameter. The node is an oracle (`Rpc`) whose every query either answers
    with an already formatted decimal string or fails. */
module Ethereum {
  import opened Wrappers
  import opened KeyValue
  import opened Network

  /** What the registry writes into the store: a string (a private key or an
      address), the empty object `{}`, or a network configuration. */
  datatype Value = Text(text: string) | EmptyObject | Config(config: NetworkConfig)

  type Kv = Store<Value>

  /** A freshly generated key pair. */
  datatype Wallet = Wallet(address: string, privateKey: string)

  /** The single slot holding the active network configuration. */
  const NetworkKey: Key := ["env", "eth", "network"]

  /** Admin records live under ["admin", address]. */
  const AdminPrefix: Key := ["admin"]

  /** Account records live under ["acct", ...]. */
  const AcctPrefix: Key := ["acct"]

  /** Minimum native balance every newly set network starts with. */
  const DefaultMinBalance: string := "0.0015"

  /** Raised by the token-list operations when the active configuration has
      no token list (a TypeError on `undefined` in the source). */
  datatype RegistryError = MissingTokenList

  // ---------------------------------------------------------------------------
  // Network registry
  // ---------------------------------------------------------------------------

  /** The RPC endpoint table of eth_set_network. */
  function AliasRpcUrl(name: string): Option<string>
  {
    if name == "op" then Some("https://mainnet.optimism.io")
    else if name == "op_test" then Some("https://sepolia.optimism.io")
    else None
  }

  /** The faucet table of eth_set_network ("op" has an empty faucet URL). */
  function AliasFaucetUrl(name: string): Option<string>
  {
    if name == "op" then Some("")
    else if name == "op_test" then Some("https://console.optimism.io/faucet")
    else None
  }

  /** The USDT contract table of eth_set_network. */
  function AliasUsdtAddress(name: string): Option<string>
  {
    if name == "op" then Some("0x94b008aa00579c1307b0ef2c499ad98a8ce58e58")
    else if name == "op_test" then Some("0x604dcaEC4E9ad55737F00D87B47ae497d2d78608")
    else None
  }

  /** The configuration eth_set_network writes for `name`: a known alias
      resolves through the tables, any other name is taken as the RPC
      endpoint itself; the token list and the minimum balance always start
      afresh. */
  function ConfigFor(name: string): (c: NetworkConfig)
    ensures c.alias == name
    ensures c.tokensAddresses == Some([]) && c.minBalance == Some(DefaultMinBalance)
    ensures c.gasForSweep == None
    ensures name == "op" ==>
      c.rpcUrl == "https://mainnet.optimism.io" && c.faucetUrl == Some("")
    ensures name == "op_test" ==>
      c.rpcUrl == "https://sepolia.optimism.io" && c.faucetUrl == Some("https://console.optimism.io/faucet")
    ensures name != "op" && name != "op_test" ==>
      c.rpcUrl == name && c.faucetUrl == None && c.usdtContractAddress == None
  {
    var rpcUrl := match AliasRpcUrl(name) case Some(url) => url case None => name;
    NetworkConfig(name, rpcUrl, AliasFaucetUrl(name), AliasUsdtAddress(name),
                  Some([]), Some(DefaultMinBalance), None)
  }

  /** The configuration get_network answers with when none is stored. */
  const Fallback: NetworkConfig := NetworkConfig(
    "op_test", "https://sepolia.optimism.io", Some("https://console.optimism.io/faucet"),
    Some(""), None, None, None)

  /** get_network: the stored configuration, or the fallback. */
  function GetNetwork(kv: Kv): (c: NetworkConfig)
    reads kv
    ensures NetworkKey in kv.data && kv.data[NetworkKey].Config? ==> c == kv.data[NetworkKey].config
    ensures (NetworkKey !in kv.data || !kv.data[NetworkKey].Config?) ==>
      c == Fallback && c.tokensAddresses == None
  {
    match kv.Get(NetworkKey)
    case Some(Config(config)) => config
    case _ => Fallback
  }

  /** eth_set_network: overwrites the network slot with a fresh configuration
      for `network`, whatever was stored before. */
  method EthSetNetwork(kv: Kv, network: string) returns (message: string)
    modifies kv
    ensures kv.data == old(kv.data)[NetworkKey := Config(ConfigFor(network))]
    ensures GetNetwork(kv) == ConfigFor(network)
    ensures GetNetwork(kv).tokensAddresses == Some([])
    ensures message == "Network set successfully"
  {
    kv.Set(NetworkKey, Config(ConfigFor(network)));
    message := "Network set successfully";
  }

  /** `s` without any occurrence of `x`, the rest in order (the filter of
      removeTokenAddress). */
  function RemoveAll(s: seq<string>, x: string): (r: seq<string>)
    ensures x !in r
    ensures |r| <= |s|
  {
    if s == [] then []
    else if s[0] == x then RemoveAll(s[1..], x)
    else [s[0]] + RemoveAll(s[1..], x)
  }

  /** Removal distributes over concatenation: the kept elements stay in order. */
  lemma {:induction false} RemoveAllAppend(a: seq<string>, b: seq<string>, x: string)
    ensures RemoveAll(a + b, x) == RemoveAll(a, x) + RemoveAll(b, x)
    decreases |a|
  {
    if a != [] {
      assert (a + b)[0] == a[0] && (a + b)[1..] == a[1..] + b;
      RemoveAllAppend(a[1..], b, x);
      if a[0] != x {
        assert RemoveAll(a + b, x) == [a[0]] + (RemoveAll(a[1..], x) + RemoveAll(b, x));
      }
    } else {
      assert a + b == b;
    }
  }

  /** Removing an absent element changes nothing. */
  lemma {:induction false} RemoveAllAbsent(s: seq<string>, x: string)
    requires x !in s
    ensures RemoveAll(s, x) == s
    decreases |s|
  {
    if s != [] {
      RemoveAllAbsent(s[1..], x);
    }
  }

  /** Every element other than `x` survives removal. */
  lemma {:induction false} RemoveAllKeeps(s: seq<string>, x: string, y: string)
    requires y != x
    ensures y in RemoveAll(s, x) <==> y in s
    decreases |s|
  {
    if s != [] {
      RemoveAllKeeps(s[1..], x, y);
    }
  }

  /** Adding an address that is not yet listed and then removing it restores
      the list. */
  lemma AddThenRemove(s: seq<string>, x: string)
    requires x !in s
    ensures RemoveAll(s + [x], x) == s
  {
    RemoveAllAppend(s, [x], x);
    RemoveAllAbsent(s, x);
  }

  /** addTokenAddress: appends `tokenAddress` to the active configuration's
      token list (no duplicate check) and stores the configuration; fails,
      writing nothing, when that configuration has no token list. */
  method AddTokenAddress(kv: Kv, tokenAddress: string) returns (r: Result<string, RegistryError>)
    modifies kv
    ensures old(GetNetwork(kv)).tokensAddresses.None? ==>
      r == Err(MissingTokenList) && kv.data == old(kv.data)
    ensures old(GetNetwork(kv)).tokensAddresses.Some? ==>
      && r == Ok("Token address added successfully")
      && kv.data == old(kv.data)[NetworkKey := Config(GetNetwork(kv))]
      && GetNetwork(kv) == old(GetNetwork(kv)).(tokensAddresses :=
           Some(old(GetNetwork(kv)).tokensAddresses.value + [tokenAddress]))
  {
    var network := GetNetwork(kv);
    if network.tokensAddresses.None? {
      return Err(MissingTokenList);
    }
    var tokensAddresses := network.tokensAddresses.value + [tokenAddress];
    kv.Set(NetworkKey, Config(network.(tokensAddresses := Some(tokensAddresses))));
    r := Ok("Token address added successfully");
  }

  /** removeTokenAddress: drops every occurrence of `tokenAddress` from the
      active configuration's token list and stores the configuration; fails,
      writing nothing, when that configuration has no token list. */
  method RemoveTokenAddress(kv: Kv, tokenAddress: string) returns (r: Result<string, RegistryError>)
    modifies kv
    ensures old(GetNetwork(kv)).tokensAddresses.None? ==>
      r == Err(MissingTokenList) && kv.data == old(kv.data)
    ensures old(GetNetwork(kv)).tokensAddresses.Some? ==>
      && r == Ok("Token address removed successfully")
      && kv.data == old(kv.data)[NetworkKey := Config(GetNetwork(kv))]
      && GetNetwork(kv) == old(GetNetwork(kv)).(tokensAddresses :=
           Some(RemoveAll(old(GetNetwork(kv)).tokensAddresses.value, tokenAddress)))
  {
    var network := GetNetwork(kv);
    if network.tokensAddresses.None? {
      return Err(MissingTokenList);
    }
    var tokensAddresses := RemoveAll(network.tokensAddresses.value, tokenAddress);
    kv.Set(NetworkKey, Config(network.(tokensAddresses := Some(tokensAddresses))));
    r := Ok("Token address removed successfully");
  }

  /** Adding an address not yet in the token list and then removing it leaves
      the active configuration as it was. */
  method AddThenRemoveToken(kv: Kv, tokenAddress: string)
    returns (added: Result<string, RegistryError>, removed: Result<string, RegistryError>)
    requires GetNetwork(kv).tokensAddresses.Some?
    requires tokenAddress !in GetNetwork(kv).tokensAddresses.value
    modifies kv
    ensures added.Ok? && removed.Ok?
    ensures GetNetwork(kv) == old(GetNetwork(kv))
    ensures kv.data == old(kv.data)
  {
    added := AddTokenAddress(kv, tokenAddress);
    removed := RemoveTokenAddress(kv, tokenAddress);
    AddThenRemove(old(GetNetwork(kv)).tokensAddresses.value, tokenAddress);
  }

  /** eth_set_min_balance: replaces only the minimum balance of the active
      configuration (the fallback one too) and stores it. */
  method EthSetMinBalance(kv: Kv, minBalance: string) returns (message: string)
    modifies kv
    ensures kv.data == old(kv.data)[NetworkKey := Config(GetNetwork(kv))]
    ensures GetNetwork(kv) == old(GetNetwork(kv)).(minBalance := Some(minBalance))
    ensures message == "Min balance set successfully"
  {
    var network := GetNetwork(kv);
    kv.Set(NetworkKey, Config(network.(minBalance := Some(minBalance))));
    message := "Min balance set successfully";
  }

  // ---------------------------------------------------------------------------
  // Account registry
  // ---------------------------------------------------------------------------

  /** The first admin record: its address (second key part) and its value. */
  datatype AdminEntry = AdminEntry(address: string, privateKey: Value)

  /** What ethGenAdmin answers. */
  datatype GenAdminResult = AlreadySet(message: string) | Created(wallet: Wallet)

  /** ethGenAcctWithoutSavePrivKey: records the new address without its
      private key, as the admin address under ["acct", "eth", "admin"] or as an
      empty record under ["acct", "eth", address]; hands the pair back. */
  method EthGenAcctWithoutSavePrivKey(kv: Kv, ifAdmin: bool, wallet: Wallet) returns (w: Wallet)
    modifies kv
    ensures w == wallet
    ensures ifAdmin ==> kv.data == old(kv.data)[["acct", "eth", "admin"] := Text(wallet.address)]
    ensures !ifAdmin ==> kv.data == old(kv.data)[["acct", "eth", wallet.address] := EmptyObject]
    ensures wallet.address != wallet.privateKey ==>
      forall k :: k in kv.data && kv.data[k] == Text(wallet.privateKey) ==>
        k in old(kv.data) && old(kv.data)[k] == Text(wallet.privateKey)
  {
    if ifAdmin {
      kv.Set(["acct", "eth", "admin"], Text(wallet.address));
    } else {
      kv.Set(["acct", "eth", wallet.address], EmptyObject);
    }
    w := wallet;
  }

  /** getAcctWithPriv: the value stored under ["acct", addr], if any. */
  function GetAcctWithPriv(kv: Kv, addr: string): (r: Option<Value>)
    reads kv
    ensures r.Some? <==> ["acct", addr] in kv.data
    ensures r.Some? ==> r.value == kv.data[["acct", addr]]
  {
    kv.Get(["acct", addr])
  }

  /** ethGenAcct: stores the new private key under ["acct", address], where
      getAcctWithPriv finds it; hands the pair back. */
  method EthGenAcct(kv: Kv, wallet: Wallet) returns (w: Wallet)
    modifies kv
    ensures w == wallet
    ensures kv.data == old(kv.data)[["acct", wallet.address] := Text(wallet.privateKey)]
    ensures GetAcctWithPriv(kv, wallet.address) == Some(Text(wallet.privateKey))
  {
    kv.Set(["acct", wallet.address], Text(wallet.privateKey));
    w := wallet;
  }

  /** ethGenAdmin: if some key with at least two parts lies under ["admin"],
      writes nothing and says so; otherwise stores the new private key under
      ["admin", address], which becomes the only admin record. */
  method EthGenAdmin(kv: Kv, wallet: Wallet) returns (r: GenAdminResult)
    modifies kv
    ensures old(kv.Matching(AdminPrefix)) != {} ==>
      r == AlreadySet("admin already set") && kv.data == old(kv.data)
    ensures old(kv.Matching(AdminPrefix)) == {} ==>
      && r == Created(wallet)
      && kv.data == old(kv.data)[["admin", wallet.address] := Text(wallet.privateKey)]
      && kv.Matching(AdminPrefix) == {["admin", wallet.address]}
  {
    // Every key listed under a one-part prefix has at least two parts, so the
    // source's scan stops at the first entry whenever there is one.
    var entries := kv.List(AdminPrefix);
    if entries != [] {
      return AlreadySet("admin already set");
    }
    kv.Set(["admin", wallet.address], Text(wallet.privateKey));
    assert UnderPrefix(AdminPrefix, ["admin", wallet.address]);
    r := Created(wallet);
  }

  /** getAdmin: the admin record with the least key, or nothing when there is
      no admin record. */
  method GetAdmin(kv: Kv) returns (r: Option<AdminEntry>)
    ensures r.None? <==> kv.Matching(AdminPrefix) == {}
    ensures r.Some? ==> exists k :: (IsLeast(k, kv.Matching(AdminPrefix)) &&
      k[1] == r.value.address && kv.data[k] == r.value.privateKey)
  {
    // As in EthGenAdmin, the first listed entry is the one the scan returns.
    var entries := kv.List(AdminPrefix);
    if entries == [] {
      return None;
    }
    var key := entries[0].0;
    assert IsLeast(key, kv.Matching(AdminPrefix)) by {
      forall k' | k' in kv.Matching(AdminPrefix) && k' != key ensures KeyBelow(key, k') {
        var j :| 0 <= j < |entries| && entries[j].0 == k';
      }
    }
    r := Some(AdminEntry(key[1], entries[0].1));
  }

  /** getAccts: the second key part of every record under ["acct"], in key
      order. Keys under ["acct", "eth"] contribute the part "eth". */
  method GetAccts(kv: Kv) returns (addresses: seq<string>)
    ensures |addresses| == |kv.Matching(AcctPrefix)|
    ensures forall i :: 0 <= i < |addresses| ==>
      addresses[i] == kv.List(AcctPrefix)[i].0[1]
    ensures forall k :: k in kv.data && UnderPrefix(AcctPrefix, k) ==> k[1] in addresses
  {
    var entries := kv.List(AcctPrefix);
    addresses := [];
    var i := 0;
    while i < |entries|
      invariant 0 <= i <= |entries|
      invariant |addresses| == i
      invariant forall j :: 0 <= j < i ==> addresses[j] == entries[j].0[1]
    {
      if |entries[i].0| >= 2 {
        addresses := addresses + [entries[i].0[1]];
      }
      i := i + 1;
    }
    forall k | k in kv.data && UnderPrefix(AcctPrefix, k) ensures k[1] in addresses {
      var j :| 0 <= j < |entries| && entries[j].0 == k;
      assert addresses[j] == k[1];
    }
  }

  /** Two calls of ethGenAdmin in a row: the second never writes, and on a
      registry without admin the first call's pair is the only admin record
      and what getAdmin reads back. */
  method GenAdminTwice(kv: Kv, first: Wallet, second: Wallet)
    returns (r1: GenAdminResult, r2: GenAdminResult, admin: Option<AdminEntry>)
    modifies kv
    ensures r2 == AlreadySet("admin already set")
    ensures old(kv.Matching(AdminPrefix)) != {} ==> kv.data == old(kv.data)
    ensures old(kv.Matching(AdminPrefix)) == {} ==>
      && r1 == Created(first)
      && kv.data == old(kv.data)[["admin", first.address] := Text(first.privateKey)]
      && kv.Matching(AdminPrefix) == {["admin", first.address]}
      && admin == Some(AdminEntry(first.address, Text(first.privateKey)))
  {
    r1 := EthGenAdmin(kv, first);
    r2 := EthGenAdmin(kv, second);
    admin := GetAdmin(kv);
  }

  // ---------------------------------------------------------------------------
  // Balance aggregation
  // ---------------------------------------------------------------------------

  /** The JSON-RPC node. `getBalance(rpcUrl, address)` is the native balance
      already formatted in ether; `tokenBalance(rpcUrl, contract, holder)` is
      the result of balanceOf and decimals already formatted with those
      decimals. `None` is a failed query. */
  datatype Rpc = Rpc(
    getBalance: (string, string) -> Option<string>,
    tokenBalance: (string, string, string) -> Option<string>)

  datatype BalanceError = RpcFailure | TokenListMissing

  /** The result of ethGetBalances. */
  datatype Balances = Balances(balanceEth: string, balances: map<string, string>)

  /** One row of getBalances. */
  datatype AddrBalance = AddrBalance(addr: string, balance: string)

  /** erc20Balance: the holder's token balance, or "0" when the contract
      address is empty or any query fails. */
  function Erc20Balance(rpc: Rpc, addr: string, contractAddress: string, rpcUrl: string): (b: string)
    ensures contractAddress == "" ==> b == "0"
    ensures contractAddress != "" && rpc.tokenBalance(rpcUrl, contractAddress, addr).None? ==> b == "0"
    ensures contractAddress != "" && rpc.tokenBalance(rpcUrl, contractAddress, addr).Some? ==>
      b == rpc.tokenBalance(rpcUrl, contractAddress, addr).value
  {
    if contractAddress == "" then "0"
    else match rpc.tokenBalance(rpcUrl, contractAddress, addr)
      case Some(balance) => balance
      case None => "0"
  }

  /** The fan-out of ethGetBalances: one (token, balance) pair per token, in
      list order. */
  function TokenBalances(rpc: Rpc, addr: string, tokens: seq<string>, rpcUrl: string): (pairs: seq<(string, string)>)
    ensures |pairs| == |tokens|
    ensures forall i :: 0 <= i < |tokens| ==>
      pairs[i] == (tokens[i], Erc20Balance(rpc, addr, tokens[i], rpcUrl))
  {
    seq(|tokens|, i requires 0 <= i < |tokens| => (tokens[i], Erc20Balance(rpc, addr, tokens[i], rpcUrl)))
  }

  /** The reduce of ethGetBalances: pairs folded left into an object, a later
      pair overwriting an earlier one with the same key. */
  function Collect(pairs: seq<(string, string)>): (m: map<string, string>)
    ensures forall i :: 0 <= i < |pairs| ==> pairs[i].0 in m
    ensures pairs != [] ==> m[pairs[|pairs| - 1].0] == pairs[|pairs| - 1].1
    decreases |pairs|
  {
    if pairs == [] then map[]
    else Collect(pairs[..|pairs| - 1])[pairs[|pairs| - 1].0 := pairs[|pairs| - 1].1]
  }

  /** The collected object has exactly the pairs' keys, and when every pair
      agrees with `f` so does the object. */
  lemma {:induction false} CollectSpec(pairs: seq<(string, string)>, f: string -> string)
    requires forall i :: 0 <= i < |pairs| ==> pairs[i].1 == f(pairs[i].0)
    ensures Collect(pairs).Keys == set i | 0 <= i < |pairs| :: pairs[i].0
    ensures forall k :: k in Collect(pairs) ==> Collect(pairs)[k] == f(k)
    decreases |pairs|
  {
    if pairs != [] {
      var init := pairs[..|pairs| - 1];
      CollectSpec(init, f);
      assert (set i | 0 <= i < |pairs| :: pairs[i].0)
          == (set i | 0 <= i < |init| :: init[i].0) + {pairs[|pairs| - 1].0} by {
        forall i | 0 <= i < |pairs|
          ensures pairs[i].0 in (set i | 0 <= i < |init| :: init[i].0) + {pairs[|pairs| - 1].0}
        {
          if i < |init| {
            assert init[i].0 == pairs[i].0;
          }
        }
      }
    }
  }

  /** ethGetBalances: the native balance and, for every configured token, its
      balance keyed by the token address. A failing native query fails the
      call; so does a configuration without a token list. */
  function EthGetBalances(rpc: Rpc, network: NetworkConfig, addr: string): (r: Result<Balances, BalanceError>)
    ensures r.Ok? <==> rpc.getBalance(network.rpcUrl, addr).Some? && network.tokensAddresses.Some?
    ensures rpc.getBalance(network.rpcUrl, addr).None? ==> r == Err(RpcFailure)
    ensures r.Ok? ==> r.value.balanceEth == rpc.getBalance(network.rpcUrl, addr).value
    ensures r.Ok? ==>
      r.value.balances.Keys == set t | t in network.tokensAddresses.value
    ensures r.Ok? ==> forall t :: t in r.value.balances ==>
      r.value.balances[t] == Erc20Balance(rpc, addr, t, network.rpcUrl)
  {
    match rpc.getBalance(network.rpcUrl, addr)
    case None => Err(RpcFailure)
    case Some(balanceEth) =>
      match network.tokensAddresses
      case None => Err(TokenListMissing)
      case Some(tokens) =>
        var pairs := TokenBalances(rpc, addr, tokens, network.rpcUrl);
        CollectSpec(pairs, t => Erc20Balance(rpc, addr, t, network.rpcUrl));
        assert (set i | 0 <= i < |pairs| :: pairs[i].0) == set t | t in tokens by {
          forall t | t in tokens ensures t in (set i | 0 <= i < |pairs| :: pairs[i].0) {
            var i :| 0 <= i < |tokens| && tokens[i] == t;
            assert pairs[i].0 == t;
          }
        }
        Ok(Balances(balanceEth, Collect(pairs)))
  }

  /** With no tokens configured the token object is empty. */
  lemma NoTokensNoBalances(rpc: Rpc, network: NetworkConfig, addr: string)
    requires network.tokensAddresses == Some([])
    requires rpc.getBalance(network.rpcUrl, addr).Some?
    ensures EthGetBalances(rpc, network, addr).Ok?
    ensures EthGetBalances(rpc, network, addr).value.balances == map[]
  {
    var b := EthGetBalances(rpc, network, addr).value.balances;
    assert b.Keys == {};
  }

  /** The native balances of `accts`, in input order; the first failing query
      fails the whole batch. */
  function NativeBalances(rpc: Rpc, rpcUrl: string, accts: seq<string>): (r: Result<seq<AddrBalance>, BalanceError>)
    ensures r.Ok? <==> forall i :: 0 <= i < |accts| ==> rpc.getBalance(rpcUrl, accts[i]).Some?
    ensures r.Err? ==> r.error == RpcFailure
    ensures r.Ok? ==> |r.value| == |accts| && forall i :: 0 <= i < |accts| ==>
      r.value[i] == AddrBalance(accts[i], rpc.getBalance(rpcUrl, accts[i]).value)
    decreases |accts|
  {
    if accts == [] then Ok([])
    else match rpc.getBalance(rpcUrl, accts[0])
      case None => Err(RpcFailure)
      case Some(balance) =>
        match NativeBalances(rpc, rpcUrl, accts[1..])
        case Err(e) => Err(e)
        case Ok(rest) => Ok([AddrBalance(accts[0], balance)] + rest)
  }

  /** getBalances: the native balance of every account on the active network,
      one row per input address, in input order. */
  function GetBalances(kv: Kv, rpc: Rpc, accts: seq<string>): (r: Result<seq<AddrBalance>, BalanceError>)
    reads kv
    ensures r.Ok? <==> forall i :: 0 <= i < |accts| ==> rpc.getBalance(GetNetwork(kv).rpcUrl, accts[i]).Some?
    ensures r.Ok? ==> |r.value| == |accts| && forall i :: 0 <= i < |accts| ==>
      r.value[i].addr == accts[i] && r.value[i].balance == rpc.getBalance(GetNetwork(kv).rpcUrl, accts[i]).value
  {
    NativeBalances(rpc, GetNetwork(kv).rpcUrl, accts)
  }
}
