/** The record of a network configuration as the registry stores it. */
module Network {
  import opened Wrappers

  /** A network configuration. `alias` is the name the configuration was set
      under; it is any string, since `eth_set_network` stores whatever name it
      is given. Absent and `undefined` fields are both `None`: the built-in
      fallback carries neither a token list nor a minimum balance, and the
      stored record also carries the USDT contract address. */
  datatype NetworkConfig = NetworkConfig(
    alias: string,
    rpcUrl: string,
    faucetUrl: Option<string>,
    usdtContractAddress: Option<string>,
    tokensAddresses: Option<seq<string>>,
    minBalance: Option<string>,
    gasForSweep: Option<string>)
}
